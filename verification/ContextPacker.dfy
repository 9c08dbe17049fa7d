/** Packing context items greedily into a token budget. */
module ContextPacker {
  import opened Bits
  import opened Seqs
  import opened DiffRoundTrip

  const U32_MAX: nat := 0xFFFF_FFFF

  datatype Source = File | Symbol | Diagnostic | Memory | Rule | OwnerMap | TestMap | ProofLane
    | GeneratedZone | GitHistory | Vector | Lexical

  /** What an item shows. */
  datatype Content =
    | FileText(path: string, start: U32, end: U32, text: string)
    | Definition(symbol: string, file: string, start: U32, end: U32, signature: string, body: string)
    | Snippet(snippet: string)
    | Statement(ruleId: string, statement: string)
    | Contract(title: string, body: string)

  /** The part of the content that an item's key is made from. */
  datatype Identity =
    | Excerpt(path: string, start: U32, end: U32)
    | SymbolDef(symbol: string)
    | Recalled(snippet: string)
    | RuleText(ruleId: string)
    | AgentContract(title: string)

  function IdentityOf(c: Content): Identity {
    match c
    case FileText(path, start, end, _) => Excerpt(path, start, end)
    case Definition(symbol, _, _, _, _, _) => SymbolDef(symbol)
    case Snippet(snippet) => Recalled(snippet)
    case Statement(ruleId, _) => RuleText(ruleId)
    case Contract(title, _) => AgentContract(title)
  }

  datatype Item = Item(content: Content, chunk: string, source: Source, cost: U32)

  datatype Handle = Handle(chunk: string, source: Source, cost: U32, caption: string)

  datatype Budget = Budget(total: U32, perItemCap: U32, reserve: U32)

  function Span(path: string, start: nat, end: nat): string {
    path + (":" + (Decimal(start) + ("-" + Decimal(end))))
  }

  function KeyOf(i: Identity): string {
    match i
    case Excerpt(path, start, end) => "file:" + Span(path, start, end)
    case SymbolDef(symbol) => "symbol:" + symbol
    case Recalled(snippet) => "memory:" + snippet
    case RuleText(ruleId) => "rule:" + ruleId
    case AgentContract(title) => "contract:" + title
  }

  function ItemKey(item: Item): string { KeyOf(IdentityOf(item.content)) }

  function LabelOf(i: Identity): string {
    match i
    case Excerpt(path, start, end) => Span(path, start, end)
    case SymbolDef(symbol) => "symbol " + symbol
    case Recalled(_) => "memory hit"
    case RuleText(ruleId) => "rule " + ruleId
    case AgentContract(title) => title
  }

  function HandleOf(item: Item): Handle {
    Handle(item.chunk, item.source, item.cost, LabelOf(IdentityOf(item.content)))
  }

  /** `saturating_sub`. */
  function Available(b: Budget): U32 {
    if b.total >= b.reserve then b.total - b.reserve else 0
  }

  // --------------------------------------------------------------- what greedy packing decides

  /** An item that may be shown in full when `used` tokens are taken. */
  predicate Fits(used: nat, b: Budget, cost: U32) {
    cost <= b.perItemCap && used + cost <= Available(b)
  }

  datatype Packing = Packing(items: seq<Item>, handles: seq<Handle>, used: nat, seen: set<string>)

  function Offer(p: Packing, b: Budget, item: Item): Packing {
    if ItemKey(item) in p.seen then p
    else if Fits(p.used, b, item.cost) then
      Packing(p.items + [item], p.handles, p.used + item.cost, p.seen + {ItemKey(item)})
    else p.(handles := p.handles + [HandleOf(item)], seen := p.seen + {ItemKey(item)})
  }

  function OfferAll(p: Packing, b: Budget, offers: seq<Item>): Packing {
    if offers == [] then p else Offer(OfferAll(p, b, offers[..|offers| - 1]), b, offers[|offers| - 1])
  }

  function SumCosts(items: seq<Item>): nat {
    if items == [] then 0 else SumCosts(items[..|items| - 1]) + items[|items| - 1].cost
  }

  ghost predicate DistinctKeys(items: seq<Item>) {
    forall i, j :: 0 <= i < j < |items| ==> ItemKey(items[i]) != ItemKey(items[j])
  }

  /** The context pack is within the budget, and its bookkeeping is right. */
  ghost predicate Sound(p: Packing, b: Budget) {
    && p.used == SumCosts(p.items) <= Available(b)
    && DistinctKeys(p.items)
    && (forall i :: 0 <= i < |p.items| ==> p.items[i].cost <= b.perItemCap && ItemKey(p.items[i]) in p.seen)
  }

  lemma OneMoreIsSound(p: Packing, b: Budget, item: Item)
    requires Sound(p, b) && ItemKey(item) !in p.seen && Fits(p.used, b, item.cost)
    ensures Sound(Packing(p.items + [item], p.handles, p.used + item.cost, p.seen + {ItemKey(item)}), b)
  {
    hide ItemKey;
    hide Available;
    hide SumCosts;
    var items := p.items + [item];
    CostsOfOneMore(p.items, item);
    forall i, j | 0 <= i < j < |items|
      ensures ItemKey(items[i]) != ItemKey(items[j])
    {
      assert items[i] == p.items[i];
    }
    forall i | 0 <= i < |items|
      ensures items[i].cost <= b.perItemCap && ItemKey(items[i]) in p.seen + {ItemKey(item)}
    {
      assert items[i] == if i < |p.items| then p.items[i] else item;
    }
  }

  lemma CostsOfOneMore(items: seq<Item>, item: Item)
    ensures SumCosts(items + [item]) == SumCosts(items) + item.cost
  {
    assert (items + [item])[..|items|] == items;
  }

  /** More handles and more keys seen change nothing of what is packed. */
  lemma PassingIsSound(p: Packing, b: Budget, handles: seq<Handle>, key: string)
    requires Sound(p, b)
    ensures Sound(p.(handles := handles, seen := p.seen + {key}), b)
  {
    hide ItemKey;
    hide Available;
    hide SumCosts;
  }

  lemma OfferKeepsSound(p: Packing, b: Budget, item: Item)
    requires Sound(p, b)
    ensures Sound(Offer(p, b, item), b)
  {
    hide Sound;
    hide ItemKey;
    hide HandleOf;
    hide Fits;
    PassingIsSound(p, b, p.handles + [HandleOf(item)], ItemKey(item));
    if ItemKey(item) !in p.seen && Fits(p.used, b, item.cost) {
      OneMoreIsSound(p, b, item);
    }
  }

  lemma {:induction false} PackingIsSound(p: Packing, b: Budget, offers: seq<Item>)
    requires Sound(p, b)
    ensures Sound(OfferAll(p, b, offers), b) && OfferAll(p, b, offers).used >= p.used
  {
    hide Sound;
    if offers != [] {
      PackingIsSound(p, b, offers[..|offers| - 1]);
      OfferKeepsSound(OfferAll(p, b, offers[..|offers| - 1]), b, offers[|offers| - 1]);
    }
  }

  // ----------------------------------------------------------- nothing is dropped, nothing spare

  /** The offers whose key neither `seen` nor an earlier offer has. */
  function FirstOffers(seen: set<string>, offers: seq<Item>): seq<Item> {
    if offers == [] then []
    else
      var n := |offers| - 1;
      FirstOffers(seen, offers[..n]) + if ItemKey(offers[n]) in seen + Keys(offers[..n]) then [] else [offers[n]]
  }

  function Keys(items: seq<Item>): set<string> {
    set i | 0 <= i < |items| :: ItemKey(items[i])
  }

  /** The first offers that are not among the packed items. */
  function Refused(p: Packing, b: Budget, offers: seq<Item>): seq<Item> {
    if offers == [] then []
    else
      var n := |offers| - 1;
      var before := OfferAll(p, b, offers[..n]);
      Refused(p, b, offers[..n]) +
        if ItemKey(offers[n]) in before.seen || Fits(before.used, b, offers[n].cost) then [] else [offers[n]]
  }

  function HandlesOf(items: seq<Item>): seq<Handle> {
    if items == [] then [] else HandlesOf(items[..|items| - 1]) + [HandleOf(items[|items| - 1])]
  }

  lemma {:induction false} SeenGrows(p: Packing, b: Budget, offers: seq<Item>)
    ensures OfferAll(p, b, offers).seen == p.seen + Keys(offers)
  {
    hide KeyOf;
    if offers == [] {
      assert Keys(offers) == {};
    } else {
      var n := |offers| - 1;
      SeenGrows(p, b, offers[..n]);
      KeysSnoc(offers[..n], offers[n]);
      assert offers == offers[..n] + [offers[n]];
    }
  }

  lemma KeysSnoc(items: seq<Item>, item: Item)
    ensures Keys(items + [item]) == Keys(items) + {ItemKey(item)}
  {
    hide KeyOf;
    var longer := items + [item];
    assert longer[|items|] == item;
    forall i | 0 <= i < |items|
      ensures ItemKey(items[i]) in Keys(longer)
    {
      assert longer[i] == items[i];
    }
  }

  lemma HandlesSnoc(items: seq<Item>, item: Item)
    ensures HandlesOf(items + [item]) == HandlesOf(items) + [HandleOf(item)]
  {
    assert (items + [item])[..|items|] == items;
  }

  /** Every first offer is packed or leaves a handle, and only those: the new items
      and the refused ones together are the first offers, and each refused one has its handle. */
  lemma {:induction false} NothingIsDropped(p: Packing, b: Budget, offers: seq<Item>)
    ensures var q := OfferAll(p, b, offers);
      && p.items <= q.items
      && multiset(q.items[|p.items|..]) + multiset(Refused(p, b, offers)) == multiset(FirstOffers(p.seen, offers))
      && q.handles == p.handles + HandlesOf(Refused(p, b, offers))
  {
    hide ItemKey;
    hide HandleOf;
    hide Fits;
    hide Keys;
    if offers == [] {
      assert p.handles + [] == p.handles && p.items[|p.items|..] == [];
    } else {
      var n := |offers| - 1;
      var before, item := OfferAll(p, b, offers[..n]), offers[n];
      NothingIsDropped(p, b, offers[..n]);
      SeenGrows(p, b, offers[..n]);
      var first, refused := FirstOffers(p.seen, offers[..n]), Refused(p, b, offers[..n]);
      var isNew := ItemKey(item) !in before.seen;
      assert FirstOffers(p.seen, offers) == first + if isNew then [item] else [];
      OfferAccounts(p.items, p.handles, before, b, item, first, refused);
    }
  }

  lemma OfferAccounts(items: seq<Item>, handles: seq<Handle>, before: Packing, b: Budget, item: Item,
                      first: seq<Item>, refused: seq<Item>)
    requires items <= before.items && before.handles == handles + HandlesOf(refused)
    requires multiset(before.items[|items|..]) + multiset(refused) == multiset(first)
    ensures var isNew := ItemKey(item) !in before.seen;
      var after, fits := Offer(before, b, item), Fits(before.used, b, item.cost);
      var refusedAfter := refused + if isNew && !fits then [item] else [];
      && items <= after.items
      && multiset(after.items[|items|..]) + multiset(refusedAfter) == multiset(first + if isNew then [item] else [])
      && after.handles == handles + HandlesOf(refusedAfter)
  {
    hide ItemKey;
    hide HandleOf;
    hide Fits;
    hide HandlesOf;
    HandlesSnoc(refused, item);
    Reassociate(handles, HandlesOf(refused), [HandleOf(item)]);
    assert (before.items + [item])[|items|..] == before.items[|items|..] + [item];
    assert refused + [] == refused && first + [] == first;
  }

  /** No refused item would fit in the finished context pack: each is over the cap for one
      item or over what is left. */
  lemma {:induction false} PackIsTight(p: Packing, b: Budget, offers: seq<Item>)
    ensures forall i :: 0 <= i < |Refused(p, b, offers)| ==>
      !Fits(OfferAll(p, b, offers).used, b, Refused(p, b, offers)[i].cost)
    ensures OfferAll(p, b, offers).used >= p.used
  {
    if offers != [] {
      PackIsTight(p, b, offers[..|offers| - 1]);
    }
  }

  // -------------------------------------------------------------------- the imperative packer

  datatype Reserve = Granted | Denied | Overflow

  /** `saturating_add`. */
  function SaturatingAdd(a: U32, b: U32): U32 {
    if a + b > U32_MAX then U32_MAX else a + b
  }

  /** Adding the item's cost to the tokens used would overflow 32 bits. */
  predicate Overflows(p: Packing, b: Budget, item: Item) {
    ItemKey(item) !in p.seen && item.cost <= b.perItemCap && Available(b) == U32_MAX && p.used + item.cost > U32_MAX
  }

  ghost predicate OverflowsAt(p: Packing, b: Budget, offers: seq<Item>, k: nat)
    requires k < |offers|
  {
    Overflows(OfferAll(p, b, offers[..k]), b, offers[k])
  }

  datatype Hit = Hit(snippet: string, cost: U32, tier: string)

  class Packer {
    var items: seq<Item>
    var handles: seq<Handle>
    var seen: set<string>
    var used: U32
    const budget: Budget

    ghost function View(): Packing
      reads this
    {
      Packing(items, handles, used, seen)
    }

    constructor (budget: Budget)
      ensures View() == Packing([], [], 0, {}) && this.budget == budget
    {
      this.budget := budget;
      items, handles, seen, used := [], [], {}, 0;
    }

    /** Overflows exactly when the saturated sum passes a limit that the true sum is over. */
    method TryReserve(cost: U32) returns (r: Reserve)
      modifies this`used
      ensures r == Overflow <==> cost <= budget.perItemCap && Available(budget) == U32_MAX && old(used) + cost > U32_MAX
      ensures r == Granted <==>
        cost <= budget.perItemCap
        && old(used) + cost <= if budget.total >= budget.reserve then budget.total - budget.reserve else 0
      ensures r == Granted <==> Fits(old(used), budget, cost)
      ensures used == if r == Granted then old(used) + cost else old(used)
    {
      var available := if budget.total >= budget.reserve then budget.total - budget.reserve else 0;
      if cost > budget.perItemCap || SaturatingAdd(used, cost) > available {
        return Denied;
      }
      if used + cost > U32_MAX {
        return Overflow;
      }
      used := used + cost;
      return Granted;
    }

    method PushBudgetedItem(item: Item) returns (ok: bool)
      modifies this
      ensures ok <==> !Overflows(old(View()), budget, item)
      ensures ok ==> View() == Offer(old(View()), budget, item)
    {
      var key := ItemKey(item);
      if key in seen {
        return true;
      }
      seen := seen + {key};
      var cost := item.cost;
      if cost > budget.perItemCap {
        handles := handles + [HandleOf(item)];
        return true;
      }
      var reserved := TryReserve(cost);
      match reserved {
        case Denied => handles := handles + [HandleOf(item)];
        case Overflow => return false;
        case Granted => items := items + [item];
      }
      return true;
    }

    /** The items of one workspace compilation, in the order they are found. */
    method PushAll(offers: seq<Item>) returns (ok: bool)
      modifies this
      ensures ok <==> forall k :: 0 <= k < |offers| ==> !OverflowsAt(old(View()), budget, offers, k)
      ensures ok ==> View() == OfferAll(old(View()), budget, offers)
    {
      hide Offer;
      hide Overflows;
      assert offers[..|offers|] == offers;
      for k := 0 to |offers|
        invariant forall j :: 0 <= j < k ==> !OverflowsAt(old(View()), budget, offers, j)
        invariant View() == OfferAll(old(View()), budget, offers[..k])
      {
        assert offers[..k + 1][..k] == offers[..k];
        ghost var before := View();
        ok := PushBudgetedItem(offers[k]);
        if !ok {
          assert Overflows(before, budget, offers[k]);
          assert OverflowsAt(old(View()), budget, offers, k);
          return false;
        }
      }
      return true;
    }

    /** One memory hit; a repeated one leaves a handle too. */
    method RecallHit(hit: Hit) returns (ok: bool)
      modifies this
      ensures ok <==> !RecallOverflows(old(View()), budget, hit)
      ensures ok ==> View() == RecallOne(old(View()), budget, hit)
    {
      hide KeyOf;
      var key := KeyOf(Recalled(hit.snippet));
      var reserved := Denied;
      if key !in seen {
        seen := seen + {key};
        reserved := TryReserve(hit.cost);
      }
      assert seen == old(seen) + {key};
      if reserved == Overflow {
        return false;
      }
      if reserved == Granted {
        items := items + [MemoryItem(|items|, hit)];
      } else {
        handles := handles + [MemoryHandle(|handles|, hit)];
      }
      return true;
    }

    /** Memory recall comes first. */
    method RecallMemory(hits: seq<Hit>) returns (ok: bool)
      modifies this
      ensures ok <==> forall k :: 0 <= k < |hits| ==> !RecallOverflowsAt(old(View()), budget, hits, k)
      ensures ok ==> View() == RecallAll(old(View()), budget, hits)
    {
      hide RecallOne;
      hide RecallOverflows;
      assert hits[..|hits|] == hits;
      for k := 0 to |hits|
        invariant forall j :: 0 <= j < k ==> !RecallOverflowsAt(old(View()), budget, hits, j)
        invariant View() == RecallAll(old(View()), budget, hits[..k])
      {
        assert hits[..k + 1][..k] == hits[..k];
        ghost var before := View();
        ok := RecallHit(hits[k]);
        if !ok {
          assert RecallOverflows(before, budget, hits[k]);
          assert RecallOverflowsAt(old(View()), budget, hits, k);
          return false;
        }
      }
      return true;
    }

    method Compile(hits: seq<Hit>, anchors: seq<string>) returns (ok: bool)
      requires View() == Packing([], [], 0, {})
      modifies this
      ensures ok <==> RecallStaysInRange(budget, hits)
      ensures ok ==> View() == Compiled(budget, hits, anchors)
    {
      ok := RecallMemory(hits);
      if !ok {
        return false;
      }
      ghost var recalled := handles;
      for k := 0 to |anchors|
        invariant View() == RecallAll(Packing([], [], 0, {}), budget, hits).(handles := handles)
        invariant handles == recalled + AnchorHandles(anchors[..k])
      {
        AnchorsSnoc(anchors, k);
        handles := handles + [AnchorHandle(k, anchors[k])];
      }
      assert anchors[..|anchors|] == anchors;
    }

    /** `offers` are the excerpts, symbols and contracts found for the anchors, in order. */
    method CompileWorkspace(hits: seq<Hit>, anchors: seq<string>, offers: seq<Item>) returns (ok: bool)
      requires View() == Packing([], [], 0, {})
      modifies this
      ensures ok <==> RecallStaysInRange(budget, hits) && OffersStayInRange(budget, hits, anchors, offers)
      ensures ok ==> View() == CompiledWorkspace(budget, hits, anchors, offers)
    {
      ok := Compile(hits, anchors);
      if !ok {
        return false;
      }
      seen := Keys(items);
      ok := PushAll(offers);
    }
  }

  // ----------------------------------------------------------------------- a whole compilation

  function MemoryItem(n: nat, hit: Hit): Item {
    Item(Snippet(hit.snippet), "mem-" + Decimal(n), Memory, hit.cost)
  }

  function MemoryHandle(n: nat, hit: Hit): Handle {
    Handle("mem-" + Decimal(n) + "-handle", Memory, hit.cost, "memory hit (" + hit.tier + ")")
  }

  function AnchorHandle(n: nat, anchor: string): Handle {
    Handle("anchor-" + Decimal(n), Symbol, 200, anchor)
  }

  function AnchorHandles(anchors: seq<string>): (r: seq<Handle>)
    ensures |r| == |anchors| && forall k :: 0 <= k < |anchors| ==> r[k] == AnchorHandle(k, anchors[k])
  {
    seq(|anchors|, k requires 0 <= k < |anchors| => AnchorHandle(k, anchors[k]))
  }

  lemma AnchorsSnoc(anchors: seq<string>, k: nat)
    requires k < |anchors|
    ensures AnchorHandles(anchors[..k + 1]) == AnchorHandles(anchors[..k]) + [AnchorHandle(k, anchors[k])]
  {
  }

  function RecallOne(p: Packing, b: Budget, hit: Hit): Packing {
    var key := KeyOf(Recalled(hit.snippet));
    if key !in p.seen && Fits(p.used, b, hit.cost) then
      Packing(p.items + [MemoryItem(|p.items|, hit)], p.handles, p.used + hit.cost, p.seen + {key})
    else p.(handles := p.handles + [MemoryHandle(|p.handles|, hit)], seen := p.seen + {key})
  }

  function RecallAll(p: Packing, b: Budget, hits: seq<Hit>): Packing {
    if hits == [] then p else RecallOne(RecallAll(p, b, hits[..|hits| - 1]), b, hits[|hits| - 1])
  }

  function Compiled(b: Budget, hits: seq<Hit>, anchors: seq<string>): Packing {
    var p := RecallAll(Packing([], [], 0, {}), b, hits);
    p.(handles := p.handles + AnchorHandles(anchors))
  }

  /** Recalling the hit asks for a sum that 32 bits do not hold. */
  predicate RecallOverflows(p: Packing, b: Budget, hit: Hit) {
    && KeyOf(Recalled(hit.snippet)) !in p.seen && hit.cost <= b.perItemCap
    && Available(b) == U32_MAX && p.used + hit.cost > U32_MAX
  }

  predicate RecallOverflowsAt(p: Packing, b: Budget, hits: seq<Hit>, k: nat)
    requires k < |hits|
  {
    RecallOverflows(RecallAll(p, b, hits[..k]), b, hits[k])
  }

  ghost predicate RecallStaysInRange(b: Budget, hits: seq<Hit>) {
    forall k :: 0 <= k < |hits| ==> !RecallOverflowsAt(EMPTY, b, hits, k)
  }

  ghost predicate OffersStayInRange(b: Budget, hits: seq<Hit>, anchors: seq<string>, offers: seq<Item>) {
    var p := Compiled(b, hits, anchors);
    forall k :: 0 <= k < |offers| ==> !OverflowsAt(p.(seen := Keys(p.items)), b, offers, k)
  }

  /** A budget that does not leave every 32-bit number available is always in range. */
  lemma SmallerIsInRange(b: Budget, hits: seq<Hit>, anchors: seq<string>, offers: seq<Item>)
    requires Available(b) < U32_MAX
    ensures RecallStaysInRange(b, hits) && OffersStayInRange(b, hits, anchors, offers)
  {
  }

  function CompiledWorkspace(b: Budget, hits: seq<Hit>, anchors: seq<string>, offers: seq<Item>): Packing {
    var p := Compiled(b, hits, anchors);
    OfferAll(p.(seen := Keys(p.items)), b, offers)
  }

  /** Recall keeps to the budget, and each hit is an item or a handle. */
  lemma {:induction false} RecallIsSound(p: Packing, b: Budget, hits: seq<Hit>)
    requires Sound(p, b)
    ensures var q := RecallAll(p, b, hits);
      Sound(q, b) && q.used >= p.used && |q.items| + |q.handles| == |p.items| + |p.handles| + |hits|
  {
    hide RecallOne;
    hide Sound;
    if hits != [] {
      RecallIsSound(p, b, hits[..|hits| - 1]);
      RecallOneIsSound(RecallAll(p, b, hits[..|hits| - 1]), b, hits[|hits| - 1]);
    }
  }

  lemma RecallOneIsSound(p: Packing, b: Budget, hit: Hit)
    requires Sound(p, b)
    ensures var q := RecallOne(p, b, hit);
      Sound(q, b) && q.used >= p.used && |q.items| + |q.handles| == |p.items| + |p.handles| + 1
  {
    hide Sound;
    hide KeyOf;
    hide Decimal;
    hide Fits;
    var key, item := KeyOf(Recalled(hit.snippet)), MemoryItem(|p.items|, hit);
    assert ItemKey(item) == key && item.cost == hit.cost;
    PassingIsSound(p, b, p.handles + [MemoryHandle(|p.handles|, hit)], key);
    if key !in p.seen && Fits(p.used, b, hit.cost) {
      OneMoreIsSound(p, b, item);
    }
  }

  ghost predicate Shown(items: seq<Item>, key: string) {
    exists i :: 0 <= i < |items| && ItemKey(items[i]) == key
  }

  /** A hit with this key costs too much for what is left. */
  ghost predicate TooCostly(hits: seq<Hit>, b: Budget, used: nat, key: string) {
    exists k :: 0 <= k < |hits| && KeyOf(Recalled(hits[k].snippet)) == key && !Fits(used, b, hits[k].cost)
  }

  lemma StaysShown(items: seq<Item>, item: Item, key: string)
    ensures Shown(items + [item], key) <==> Shown(items, key) || ItemKey(item) == key
  {
    hide KeyOf;
    var longer := items + [item];
    assert longer[|items|] == item && forall i :: 0 <= i < |items| ==> longer[i] == items[i];
  }

  lemma StaysTooCostly(hits: seq<Hit>, hit: Hit, b: Budget, used: nat, more: nat, key: string)
    requires used <= more
    ensures TooCostly(hits, b, used, key) ==> TooCostly(hits + [hit], b, more, key)
    ensures KeyOf(Recalled(hit.snippet)) == key && !Fits(more, b, hit.cost) ==> TooCostly(hits + [hit], b, more, key)
  {
    hide KeyOf;
    var longer := hits + [hit];
    assert longer[|hits|] == hit && forall i :: 0 <= i < |hits| ==> longer[i] == hits[i];
  }

  /** What a recall saw is shown, or would still not fit at the end. */
  lemma {:induction false} RecallIsTight(p: Packing, b: Budget, hits: seq<Hit>, key: string)
    ensures var q := RecallAll(p, b, hits);
      key in q.seen && key !in p.seen ==> Shown(q.items, key) || TooCostly(hits, b, q.used, key)
    ensures RecallAll(p, b, hits).used >= p.used
  {
    hide KeyOf;
    hide Decimal;
    hide Fits;
    hide Shown;
    hide TooCostly;
    if hits != [] {
      var n := |hits| - 1;
      var before, hit := RecallAll(p, b, hits[..n]), hits[n];
      var after := RecallOne(before, b, hit);
      RecallIsTight(p, b, hits[..n], key);
      assert hits == hits[..n] + [hit];
      StaysShown(before.items, MemoryItem(|before.items|, hit), key);
      StaysTooCostly(hits[..n], hit, b, before.used, after.used, key);
    }
  }

  /** The finished context pack of a workspace: within budget, no key twice, every offer
      shown or handed on, and nothing refused that would still fit. */
  lemma WorkspacePackIsSoundAndTight(b: Budget, hits: seq<Hit>, anchors: seq<string>, offers: seq<Item>)
    ensures var start := Compiled(b, hits, anchors).(seen := Keys(Compiled(b, hits, anchors).items));
      var pack, refused := CompiledWorkspace(b, hits, anchors, offers), Refused(start, b, offers);
      && Sound(pack, b)
      && start.items <= pack.items
      && multiset(pack.items[|start.items|..]) + multiset(refused) == multiset(FirstOffers(start.seen, offers))
      && pack.handles == start.handles + HandlesOf(refused)
      && forall i :: 0 <= i < |refused| ==> !Fits(pack.used, b, refused[i].cost)
  {
    hide KeyOf;
    hide Decimal;
    RecallIsSound(Packing([], [], 0, {}), b, hits);
    var p := Compiled(b, hits, anchors);
    var start := p.(seen := Keys(p.items));
    assert Sound(start, b);
    PackingIsSound(start, b, offers);
    NothingIsDropped(start, b, offers);
    PackIsTight(start, b, offers);
  }

  /** Every anchor is handed on under its own name, behind what recall left. */
  lemma AnchorsAreHandedOn(b: Budget, hits: seq<Hit>, anchors: seq<string>, k: nat)
    requires k < |anchors|
    ensures var p, recalled := Compiled(b, hits, anchors), RecallAll(EMPTY, b, hits);
      && p.items == recalled.items && |p.handles| == |recalled.handles| + |anchors|
      && p.handles[|recalled.handles| + k] == Handle("anchor-" + Decimal(k), Symbol, 200, anchors[k])
  {
    hide RecallAll;
    hide Decimal;
  }

  // ------------------------------------------------------------ the reserve, in plain numbers

  /** An item fits if it is not too large by itself, and either takes nothing with
      nothing taken or leaves the reserve free. */
  lemma FitsMeans(used: nat, b: Budget, cost: U32)
    ensures Fits(used, b, cost) <==>
      cost <= b.perItemCap && (used + cost == 0 || used + cost + b.reserve <= b.total)
  {
  }

  /** A finished context pack leaves the reserve free, or takes nothing, and every refused
      offer is too large by itself or would have gone into the reserve; its handle tells
      where it is and what it costs. */
  lemma ReserveIsKept(b: Budget, hits: seq<Hit>, anchors: seq<string>, offers: seq<Item>)
    ensures var p := Compiled(b, hits, anchors);
      var pack := CompiledWorkspace(b, hits, anchors, offers);
      var refused := Refused(p.(seen := Keys(p.items)), b, offers);
      && (pack.used == 0 || pack.used + b.reserve <= b.total)
      && (b.total < b.reserve ==> pack.used == 0)
      && (forall i :: 0 <= i < |refused| ==>
           || refused[i].cost > b.perItemCap
           || (pack.used + refused[i].cost > 0 && pack.used + refused[i].cost + b.reserve > b.total))
      && |pack.handles| == |p.handles| + |refused|
      && (forall i :: 0 <= i < |refused| ==>
           var h := pack.handles[|p.handles| + i];
           h.chunk == refused[i].chunk && h.source == refused[i].source && h.cost == refused[i].cost)
  {
    hide ItemKey;
    hide SumCosts;
    hide RecallAll;
    hide OfferAll;
    hide Refused;
    hide HandlesOf;
    hide LabelOf;
    hide IdentityOf;
    var p := Compiled(b, hits, anchors);
    var pack := CompiledWorkspace(b, hits, anchors, offers);
    var refused := Refused(p.(seen := Keys(p.items)), b, offers);
    WorkspacePackIsSoundAndTight(b, hits, anchors, offers);
    forall i | 0 <= i < |refused|
      ensures refused[i].cost > b.perItemCap
        || (pack.used + refused[i].cost > 0 && pack.used + refused[i].cost + b.reserve > b.total)
    {
      FitsMeans(pack.used, b, refused[i].cost);
    }
    HandlesAt(refused);
    assert pack.handles == p.handles + HandlesOf(refused);
  }

  lemma {:induction false} HandlesAt(items: seq<Item>)
    ensures |HandlesOf(items)| == |items| && forall i :: 0 <= i < |items| ==> HandlesOf(items)[i] == HandleOf(items[i])
  {
    hide HandleOf;
    if items != [] {
      HandlesAt(items[..|items| - 1]);
    }
  }

  /** For instance an item of 80 of 100 tokens, 40 of which are reserved. */
  lemma ReserveRefuses(item: Item)
    requires item.cost == 80
    ensures Offer(EMPTY, Budget(100, 100, 40), item) == Packing([], [HandleOf(item)], 0, {ItemKey(item)})
  {
    hide ItemKey;
  }

  // --------------------------------------------------------------- when the sum can overflow

  const EMPTY := Packing([], [], 0, {})

  /** Different items, each of the largest cost allowed. */
  function Fillers(n: nat, cost: U32): (r: seq<Item>)
    ensures |r| == n
  {
    seq(n, i requires 0 <= i => Item(Snippet(seq(i, _ => 'a')), "", Memory, cost))
  }

  lemma {:induction false} FillersPack(b: Budget, n: nat)
    requires Available(b) == U32_MAX && n * b.perItemCap <= U32_MAX
    ensures OfferAll(EMPTY, b, Fillers(n, b.perItemCap)).used == n * b.perItemCap
    ensures OfferAll(EMPTY, b, Fillers(n, b.perItemCap)).seen == Keys(Fillers(n, b.perItemCap))
  {
    hide KeyOf;
    var cost := b.perItemCap;
    SeenGrows(EMPTY, b, Fillers(n, cost));
    if n > 0 {
      assert (n - 1) * cost + cost == n * cost;
      FillersPack(b, n - 1);
      assert Fillers(n, cost)[..n - 1] == Fillers(n - 1, cost);
      NextFillerIsNew(n - 1, cost);
    }
  }

  lemma NextFillerIsNew(n: nat, cost: U32)
    ensures ItemKey(Fillers(n + 1, cost)[n]) !in Keys(Fillers(n, cost))
  {
    hide KeyOf;
    var next := Fillers(n + 1, cost)[n];
    assert |next.content.snippet| == n;
    forall i | 0 <= i < n
      ensures ItemKey(Fillers(n, cost)[i]) != ItemKey(next)
    {
      assert |Fillers(n, cost)[i].content.snippet| == i;
      KeysDiffer(IdentityOf(Fillers(n, cost)[i].content), IdentityOf(next.content));
    }
  }

  lemma KeysDiffer(i: Identity, j: Identity)
    requires i != j
    ensures KeyOf(i) != KeyOf(j)
  {
    if KeyOf(i) == KeyOf(j) {
      KeyIdentifies(i, j);
    }
  }

  /** The 32-bit sum can overflow exactly for the budget that leaves every 32-bit
      number available, if items may cost anything at all. */
  lemma OverflowsIff(b: Budget)
    ensures (exists offers, k: nat :: k < |offers| && OverflowsAt(EMPTY, b, offers, k))
       <==> Available(b) == U32_MAX && b.perItemCap > 0
  {
    if Available(b) == U32_MAX && b.perItemCap > 0 {
      var cost := b.perItemCap;
      var n := U32_MAX / cost;
      FullSteps(cost, n);
      FillersPack(b, n);
      NextFillerIsNew(n, cost);
      assert Fillers(n + 1, cost)[..n] == Fillers(n, cost);
      assert OverflowsAt(EMPTY, b, Fillers(n + 1, cost), n);
    }
    forall offers, k: nat | k < |offers| && OverflowsAt(EMPTY, b, offers, k)
      ensures Available(b) == U32_MAX && b.perItemCap > 0
    {
      assert Sound(EMPTY, b);
      PackingIsSound(EMPTY, b, offers[..k]);
    }
  }

  lemma FullSteps(cost: nat, n: nat)
    requires cost > 0 && n == U32_MAX / cost
    ensures n * cost <= U32_MAX && n * cost + cost > U32_MAX
  {
  }

  // ------------------------------------------------------------------- keys identify sources

  lemma {:induction false} DecimalHasNo(n: nat, c: char)
    requires c < '0' || c > '9'
    ensures c !in Decimal(n)
  {
    if n >= 10 {
      DecimalHasNo(n / 10, c);
    }
  }

  lemma DecimalInjective(m: nat, n: nat)
    requires Decimal(m) == Decimal(n)
    ensures m == n
  {
    DecimalRoundTrip(m);
    DecimalRoundTrip(n);
  }

  function LastAt(s: string, mark: char): int {
    if s == "" then -1 else if s[|s| - 1] == mark then |s| - 1 else LastAt(s[..|s| - 1], mark)
  }

  lemma {:induction false} LastAtMark(a: string, x: string, mark: char)
    requires mark !in x
    ensures LastAt(a + ([mark] + x), mark) == |a|
    decreases |x|
  {
    var s := a + ([mark] + x);
    if x != "" {
      assert s[..|s| - 1] == a + ([mark] + x[..|x| - 1]);
      LastAtMark(a, x[..|x| - 1], mark);
    }
  }

  /** Two texts split at their last mark are split alike. */
  lemma LastMarkSplits(a: string, x: string, b: string, y: string, mark: char)
    requires a + ([mark] + x) == b + ([mark] + y) && mark !in x && mark !in y
    ensures a == b && x == y
  {
    LastAtMark(a, x, mark);
    LastAtMark(b, y, mark);
    PrefixOfConcat(a, [mark] + x);
    PrefixOfConcat(b, [mark] + y);
    assert ([mark] + x)[1..] == x && ([mark] + y)[1..] == y;
  }

  lemma SpanInjective(p: string, a: nat, b: nat, q: string, c: nat, d: nat)
    requires Span(p, a, b) == Span(q, c, d)
    ensures p == q && a == c && b == d
  {
    DecimalHasNo(a, ':');
    DecimalHasNo(b, ':');
    DecimalHasNo(c, ':');
    DecimalHasNo(d, ':');
    DecimalHasNo(b, '-');
    DecimalHasNo(d, '-');
    LastMarkSplits(p, Decimal(a) + ("-" + Decimal(b)), q, Decimal(c) + ("-" + Decimal(d)), ':');
    LastMarkSplits(Decimal(a), Decimal(b), Decimal(c), Decimal(d), '-');
    DecimalInjective(a, c);
    DecimalInjective(b, d);
  }

  /** A key determines the identity it is made from. */
  lemma KeyIdentifies(i: Identity, j: Identity)
    requires KeyOf(i) == KeyOf(j)
    ensures i == j
  {
    KeyStarts(i);
    KeyStarts(j);
    match (i, j)
    case (Excerpt(p, a, b), Excerpt(q, c, d)) =>
      PrefixOfConcat("file:", Span(p, a, b));
      PrefixOfConcat("file:", Span(q, c, d));
      SpanInjective(p, a, b, q, c, d);
    case (SymbolDef(p), SymbolDef(q)) =>
      PrefixOfConcat("symbol:", p);
      PrefixOfConcat("symbol:", q);
    case (Recalled(p), Recalled(q)) =>
      PrefixOfConcat("memory:", p);
      PrefixOfConcat("memory:", q);
    case (RuleText(p), RuleText(q)) =>
      PrefixOfConcat("rule:", p);
      PrefixOfConcat("rule:", q);
    case (AgentContract(p), AgentContract(q)) =>
      PrefixOfConcat("contract:", p);
      PrefixOfConcat("contract:", q);
    case _ =>
  }

  lemma KeyStarts(i: Identity)
    ensures var k := KeyOf(i);
      && |k| > 0
      && k[0] == match i case Excerpt(_, _, _) => 'f' case SymbolDef(_) => 's' case Recalled(_) => 'm'
                         case RuleText(_) => 'r' case AgentContract(_) => 'c'
  {
  }

  // ----------------------------------------------------------- what is taken for a repeat

  /** Different contents of one identity: another text of the same lines, another
      definition of the same symbol, another wording of the same rule or contract. */
  predicate SameButContent(a: Content, b: Content) {
    match (a, b)
    case (FileText(p, i, j, t), FileText(q, k, l, u)) => p == q && i == k && j == l && t != u
    case (Definition(m, _, _, _, _, _), Definition(n, _, _, _, _, _)) => m == n && a != b
    case (Statement(m, t), Statement(n, u)) => m == n && t != u
    case (Contract(m, t), Contract(n, u)) => m == n && t != u
    case _ => false
  }

  /** Items share a key exactly when their contents are equal or differ only in
      what the key leaves out. */
  lemma SharesKeyIff(a: Item, b: Item)
    ensures ItemKey(a) == ItemKey(b) <==> a.content == b.content || SameButContent(a.content, b.content)
  {
    hide KeyOf;
    if ItemKey(a) == ItemKey(b) {
      KeyIdentifies(IdentityOf(a.content), IdentityOf(b.content));
    }
  }

  /** The packing as it is when offer `k` comes. */
  function Before(p: Packing, b: Budget, offers: seq<Item>, k: nat): Packing
    requires k <= |offers|
  {
    OfferAll(p, b, offers[..k])
  }

  /** Offer `k` is passed over: it is not shown and leaves no handle. */
  predicate PassedOver(p: Packing, b: Budget, offers: seq<Item>, k: nat)
    requires k < |offers|
  {
    Before(p, b, offers, k + 1) == Before(p, b, offers, k)
  }

  lemma PassedOverIffSeen(p: Packing, b: Budget, offers: seq<Item>, k: nat)
    requires k < |offers|
    ensures PassedOver(p, b, offers, k) <==> ItemKey(offers[k]) in p.seen + Keys(offers[..k])
  {
    hide KeyOf;
    hide HandleOf;
    hide Keys;
    SeenGrows(p, b, offers[..k]);
    assert offers[..k + 1][..k] == offers[..k];
    var q := Before(p, b, offers, k);
    assert ItemKey(offers[k]) !in q.seen ==> ItemKey(offers[k]) in Offer(q, b, offers[k]).seen;
  }

  ghost predicate Holds(items: seq<Item>, c: Content) {
    exists i :: 0 <= i < |items| && items[i].content == c
  }

  ghost predicate HoldsOther(items: seq<Item>, c: Content) {
    exists i :: 0 <= i < |items| && SameButContent(items[i].content, c)
  }

  lemma KeyAmong(items: seq<Item>, item: Item)
    ensures ItemKey(item) in Keys(items) <==> Holds(items, item.content) || HoldsOther(items, item.content)
  {
    hide KeyOf;
    hide SameButContent;
    forall i | 0 <= i < |items|
      ensures ItemKey(items[i]) == ItemKey(item)
        <==> items[i].content == item.content || SameButContent(items[i].content, item.content)
    {
      SharesKeyIff(items[i], item);
    }
  }

  /** An offer is passed over exactly when something shown before or offered earlier
      has its content, or differs from it only in what the key leaves out; in the
      second case what it shows is lost unless that is there too. */
  lemma PassedOverIff(p: Packing, b: Budget, offers: seq<Item>, k: nat)
    requires p.seen == Keys(p.items) && k < |offers|
    ensures var earlier := p.items + offers[..k];
      PassedOver(p, b, offers, k) <==> Holds(earlier, offers[k].content) || HoldsOther(earlier, offers[k].content)
  {
    hide Keys;
    hide KeyOf;
    PassedOverIffSeen(p, b, offers, k);
    KeysConcat(p.items, offers[..k]);
    KeyAmong(p.items + offers[..k], offers[k]);
  }

  lemma KeysConcat(a: seq<Item>, b: seq<Item>)
    ensures Keys(a + b) == Keys(a) + Keys(b)
  {
    hide KeyOf;
    var all := a + b;
    forall i | 0 <= i < |a|
      ensures ItemKey(a[i]) in Keys(all)
    {
      assert all[i] == a[i];
    }
    forall i | 0 <= i < |b|
      ensures ItemKey(b[i]) in Keys(all)
    {
      assert all[|a| + i] == b[i];
    }
  }

  ghost predicate DefinitionsOf(offers: seq<Item>, symbol: string) {
    forall i :: 0 <= i < |offers| ==> offers[i].content.Definition? && offers[i].content.symbol == symbol
  }

  /** Of all the definitions of one symbol only the first is shown or handed on. */
  lemma {:induction false} OnlyFirstDefinition(p: Packing, b: Budget, offers: seq<Item>, symbol: string)
    requires offers != [] && DefinitionsOf(offers, symbol)
    ensures OfferAll(p, b, offers) == Offer(p, b, offers[0])
  {
    hide KeyOf;
    var n := |offers| - 1;
    if n == 0 {
      assert offers[..0] == [];
    } else {
      OnlyFirstDefinition(p, b, offers[..n], symbol);
      assert ItemKey(offers[n]) == ItemKey(offers[0]);
    }
  }

  /** For instance: a crate with `new` in two files. */
  lemma SecondDefinitionIsLost(b: Budget)
    requires Available(b) >= 16 && b.perItemCap >= 8
    ensures
      var first := Item(Definition("new", "a.rs", 3, 5, "function new", "fn new() -> A"), "symbol:a.rs:3-5", Symbol, 8);
      var second :=
        Item(Definition("new", "b.rs", 7, 9, "function new", "fn new() -> B"), "symbol:b.rs:7-9", Symbol, 8);
      && OfferAll(EMPTY, b, [first, second]) == Packing([first], [], 8, {ItemKey(first)})
      && Fits(8, b, second.cost)
  {
    hide KeyOf;
    var first := Item(Definition("new", "a.rs", 3, 5, "function new", "fn new() -> A"), "symbol:a.rs:3-5", Symbol, 8);
    var second := Item(Definition("new", "b.rs", 7, 9, "function new", "fn new() -> B"), "symbol:b.rs:7-9", Symbol, 8);
    OnlyFirstDefinition(EMPTY, b, [first, second], "new");
  }
}
