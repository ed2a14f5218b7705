/** The NFT selection engine of a contest entry: the user picks NFTs from a
    catalog, one click at a time, under a count limit (`nftCount`, fixed by the
    contest) and a fixed budget. The component keeps two pieces of state, the
    selected NFTs in selection order and the running `spentBudget`. */
module NftSelector {

  /** The budget every entry may spend, in whole dollars. */
  const BUDGET_LIMIT: int := 10000

  /** A catalog item. The image URL is presentational and left out. */
  datatype Nft = Nft(id: int, name: string, price: int, collection: string)

  /** The selector's state as a value: the selected NFTs and the budget spent. */
  datatype Selection = Selection(selected: seq<Nft>, spent: int)

  /** The state a selection session starts in. */
  const Initial: Selection := Selection([], 0)

  /** The outcome of pressing "Submit Selection": the selection is handed on,
      or the user is told how many NFTs to pick. */
  datatype SubmitOutcome = Submitted(nfts: seq<Nft>) | SelectExactly(required: int)

  // ---------------------------------------------------------------------
  // Specification helpers

  /** Sum of the prices of `nfts`. */
  function TotalPrice(nfts: seq<Nft>): int
  {
    if nfts == [] then 0 else nfts[0].price + TotalPrice(nfts[1..])
  }

  /** No identifier occurs twice. */
  ghost predicate DistinctIds(nfts: seq<Nft>)
  {
    forall i, j :: 0 <= i < j < |nfts| ==> nfts[i].id != nfts[j].id
  }

  /** What the selector assumes of its catalog: identifiers are unique (so an
      identifier names one record) and prices are not negative. */
  ghost predicate CatalogOk(catalog: seq<Nft>)
  {
    (forall a, b :: a in catalog && b in catalog && a.id == b.id ==> a == b) &&
    (forall n :: n in catalog ==> 0 <= n.price)
  }

  /** The invariant of the selector's state, for a contest requiring `nftCount`
      NFTs and a session over `catalog`. */
  ghost predicate Inv(s: Selection, nftCount: int, catalog: seq<Nft>)
  {
    |s.selected| <= nftCount &&
    s.spent <= BUDGET_LIMIT &&
    s.spent == TotalPrice(s.selected) &&
    DistinctIds(s.selected) &&
    forall n :: n in s.selected ==> n in catalog
  }

  /** `xs` with the element at `k` deleted. */
  function DeleteAt(xs: seq<Nft>, k: nat): seq<Nft>
    requires k < |xs|
  {
    xs[..k] + xs[k + 1..]
  }

  // ---------------------------------------------------------------------
  // The operations

  /** Whether an NFT with identifier `id` is selected: the truthiness of
      `selectedNFTs.find(n => n.id === id)`. */
  predicate IsSelected(selected: seq<Nft>, id: int)
    ensures IsSelected(selected, id) <==> exists i :: 0 <= i < |selected| && selected[i].id == id
  {
    exists n :: n in selected && n.id == id
  }

  /** `selectedNFTs.filter(n => n.id !== id)`: every NFT with another
      identifier, in the same order. */
  function WithoutId(selected: seq<Nft>, id: int): (r: seq<Nft>)
    ensures forall n :: n in r <==> n in selected && n.id != id
    ensures |r| <= |selected|
    ensures !IsSelected(r, id)
  {
    if selected == [] then []
    else if selected[0].id == id then WithoutId(selected[1..], id)
    else [selected[0]] + WithoutId(selected[1..], id)
  }

  /** One click on `nft` (`handleNFTSelect`): a selected NFT is removed and its
      price refunded; an unselected one is added only while fewer than
      `nftCount` are selected and its price fits in the budget; otherwise
      nothing changes. */
  function Toggle(s: Selection, nft: Nft, nftCount: int): (r: Selection)
    ensures IsSelected(r.selected, nft.id) <==>
              !IsSelected(s.selected, nft.id) && |s.selected| < nftCount &&
              s.spent + nft.price <= BUDGET_LIMIT
    ensures forall m: Nft :: m.id != nft.id ==> (m in r.selected <==> m in s.selected)
    ensures r.spent == s.spent + (if IsSelected(r.selected, nft.id) == IsSelected(s.selected, nft.id) then 0
                                  else if IsSelected(r.selected, nft.id) then nft.price
                                  else -nft.price)
  {
    if IsSelected(s.selected, nft.id) then
      Selection(WithoutId(s.selected, nft.id), s.spent - nft.price)
    else if |s.selected| < nftCount && s.spent + nft.price <= BUDGET_LIMIT then
      Selection(s.selected + [nft], s.spent + nft.price)
    else
      s
  }

  /** The card's `isDisabled` flag. It is raised exactly when a click on the
      card would be a rejected addition, i.e. when the toggle would change nothing
      for an NFT that is not selected. */
  predicate IsDisabled(s: Selection, nft: Nft, nftCount: int)
    ensures IsDisabled(s, nft, nftCount) <==>
              !IsSelected(s.selected, nft.id) && Toggle(s, nft, nftCount) == s
  {
    !IsSelected(s.selected, nft.id) &&
    (|s.selected| >= nftCount || s.spent + nft.price > BUDGET_LIMIT)
  }

  /** A click as the card delivers it: `!isDisabled && handleNFTSelect(nft)`.
      The view's guard only drops clicks the handler would ignore anyway. */
  function Click(s: Selection, nft: Nft, nftCount: int): (r: Selection)
    ensures r == Toggle(s, nft, nftCount)
  {
    if IsDisabled(s, nft, nftCount) then s else Toggle(s, nft, nftCount)
  }

  /** The submit button is enabled (`disabled={selectedNFTs.length !== nftCount}`). */
  predicate CanSubmit(selected: seq<Nft>, nftCount: int)
  {
    |selected| == nftCount
  }

  /** A session: the clicks `nfts`, applied in order from `s`. */
  function ToggleAll(s: Selection, nfts: seq<Nft>, nftCount: int): Selection
    decreases |nfts|
  {
    if nfts == [] then s else ToggleAll(Toggle(s, nfts[0], nftCount), nfts[1..], nftCount)
  }

  // ---------------------------------------------------------------------
  // Lemmas about the helpers

  lemma {:induction false} TotalPriceConcat(a: seq<Nft>, b: seq<Nft>)
    ensures TotalPrice(a + b) == TotalPrice(a) + TotalPrice(b)
  {
    if a != [] {
      assert (a + b)[0] == a[0] && (a + b)[1..] == a[1..] + b;
      TotalPriceConcat(a[1..], b);
    } else {
      assert a + b == b;
    }
  }

  /** Filtering out an identifier that is not present changes nothing. */
  lemma {:induction false} WithoutAbsentId(selected: seq<Nft>, id: int)
    requires !IsSelected(selected, id)
    ensures WithoutId(selected, id) == selected
  {
    if selected != [] {
      assert selected[0] in selected;
      assert !IsSelected(selected[1..], id) by {
        forall n | n in selected[1..] ensures n.id != id {
          assert n in selected;
        }
      }
      WithoutAbsentId(selected[1..], id);
    }
  }

  lemma {:induction false} WithoutIdConcat(a: seq<Nft>, b: seq<Nft>, id: int)
    ensures WithoutId(a + b, id) == WithoutId(a, id) + WithoutId(b, id)
  {
    if a != [] {
      assert (a + b)[0] == a[0] && (a + b)[1..] == a[1..] + b;
      WithoutIdConcat(a[1..], b, id);
    } else {
      assert a + b == b;
    }
  }

  /** `find` and `filter` agree: an identifier is found exactly when filtering
      it out removes something, so the removal branch always removes. */
  lemma {:induction false} FindAgreesWithFilter(selected: seq<Nft>, id: int)
    ensures IsSelected(selected, id) <==> |WithoutId(selected, id)| < |selected|
  {
    if selected != [] {
      FindAgreesWithFilter(selected[1..], id);
      if selected[0].id != id {
        assert IsSelected(selected, id) ==> IsSelected(selected[1..], id) by {
          if IsSelected(selected, id) {
            var i :| 0 <= i < |selected| && selected[i].id == id;
            assert selected[1..][i - 1] == selected[i];
          }
        }
        assert IsSelected(selected[1..], id) ==> IsSelected(selected, id) by {
          if IsSelected(selected[1..], id) {
            var i :| 0 <= i < |selected[1..]| && selected[1..][i].id == id;
            assert selected[i + 1].id == id;
          }
        }
      } else {
        assert selected[0] in selected;
      }
    }
  }

  /** With distinct identifiers, filtering out the identifier at `k` deletes
      exactly position `k`: the others keep their order. */
  lemma {:induction false} WithoutIdDeletes(selected: seq<Nft>, k: nat)
    requires k < |selected| && DistinctIds(selected)
    ensures WithoutId(selected, selected[k].id) == DeleteAt(selected, k)
  {
    if k == 0 {
      HeadIdNotInTail(selected);
      WithoutAbsentId(selected[1..], selected[0].id);
      assert DeleteAt(selected, 0) == selected[1..];
    } else {
      var tail := selected[1..];
      assert selected[0].id != selected[k].id;
      assert tail[k - 1] == selected[k];
      TailDistinct(selected);
      WithoutIdDeletes(tail, k - 1);
      assert DeleteAt(selected, k) == [selected[0]] + DeleteAt(tail, k - 1);
    }
  }

  lemma HeadIdNotInTail(selected: seq<Nft>)
    requires |selected| > 0 && DistinctIds(selected)
    ensures !IsSelected(selected[1..], selected[0].id)
  {
    forall i | 0 <= i < |selected[1..]| ensures selected[1..][i].id != selected[0].id {
      assert selected[1..][i] == selected[i + 1];
    }
  }

  lemma TailDistinct(selected: seq<Nft>)
    requires |selected| > 0 && DistinctIds(selected)
    ensures DistinctIds(selected[1..])
  {
    var tail := selected[1..];
    forall i, j | 0 <= i < j < |tail| ensures tail[i].id != tail[j].id {
      assert tail[i] == selected[i + 1] && tail[j] == selected[j + 1];
    }
  }

  lemma {:induction false} DeleteAtTotal(xs: seq<Nft>, k: nat)
    requires k < |xs|
    ensures TotalPrice(DeleteAt(xs, k)) == TotalPrice(xs) - xs[k].price
  {
    if k == 0 {
      assert DeleteAt(xs, 0) == xs[1..];
    } else {
      var d := DeleteAt(xs[1..], k - 1);
      DeleteAtTotal(xs[1..], k - 1);
      assert DeleteAt(xs, k) == [xs[0]] + d;
      assert ([xs[0]] + d)[1..] == d;
    }
  }

  lemma DeleteAtDistinct(xs: seq<Nft>, k: nat)
    requires k < |xs| && DistinctIds(xs)
    ensures DistinctIds(DeleteAt(xs, k))
    ensures |DeleteAt(xs, k)| == |xs| - 1
  {
  }

  /** Prices are bounded by the total when none is negative. */
  lemma {:induction false} PriceAtMostTotal(nfts: seq<Nft>, n: Nft)
    requires forall m :: m in nfts ==> 0 <= m.price
    requires n in nfts
    ensures 0 <= n.price <= TotalPrice(nfts)
  {
    if nfts[0] != n {
      assert n in nfts[1..];
      PriceAtMostTotal(nfts[1..], n);
    }
    TotalNonNegative(nfts[1..]);
  }

  lemma {:induction false} TotalNonNegative(nfts: seq<Nft>)
    requires forall m :: m in nfts ==> 0 <= m.price
    ensures 0 <= TotalPrice(nfts)
  {
    if nfts != [] {
      assert nfts[0] in nfts;
      TotalNonNegative(nfts[1..]);
    }
  }

  /** The index of the selected NFT with identifier `id`. */
  lemma SelectedIndex(selected: seq<Nft>, id: int) returns (k: nat)
    requires IsSelected(selected, id)
    ensures k < |selected| && selected[k].id == id
  {
    var n :| n in selected && n.id == id;
    k :| k < |selected| && selected[k] == n;
  }

  // ---------------------------------------------------------------------
  // Properties of one toggle

  /** The count bound `selectedNFTs.length <= nftCount` survives every toggle. */
  lemma ToggleKeepsCountBound(s: Selection, nft: Nft, nftCount: int)
    requires |s.selected| <= nftCount
    ensures |Toggle(s, nft, nftCount).selected| <= nftCount
  {
  }

  /** The budget bound `spentBudget <= BUDGET_LIMIT` survives every toggle of an
      NFT whose price is not negative. */
  lemma ToggleKeepsBudgetBound(s: Selection, nft: Nft, nftCount: int)
    requires s.spent <= BUDGET_LIMIT && 0 <= nft.price
    ensures Toggle(s, nft, nftCount).spent <= BUDGET_LIMIT
  {
  }

  /** `spentBudget` stays the sum of the selected prices, provided the record
      clicked is the record stored under its identifier (as it is when both
      come from one catalog with unique identifiers). */
  lemma ToggleKeepsTotal(s: Selection, nft: Nft, nftCount: int)
    requires s.spent == TotalPrice(s.selected) && DistinctIds(s.selected)
    requires forall m :: m in s.selected && m.id == nft.id ==> m == nft
    ensures Toggle(s, nft, nftCount).spent == TotalPrice(Toggle(s, nft, nftCount).selected)
  {
    if IsSelected(s.selected, nft.id) {
      var k := SelectedIndex(s.selected, nft.id);
      WithoutIdDeletes(s.selected, k);
      DeleteAtTotal(s.selected, k);
    } else {
      TotalPriceConcat(s.selected, [nft]);
    }
  }

  /** Identifiers stay distinct: an identifier already present takes the
      removal branch, so it is never appended a second time. */
  lemma ToggleKeepsDistinctIds(s: Selection, nft: Nft, nftCount: int)
    requires DistinctIds(s.selected)
    ensures DistinctIds(Toggle(s, nft, nftCount).selected)
  {
    if IsSelected(s.selected, nft.id) {
      var k := SelectedIndex(s.selected, nft.id);
      WithoutIdDeletes(s.selected, k);
      DeleteAtDistinct(s.selected, k);
    } else {
      var r := s.selected + [nft];
      forall i, j | 0 <= i < j < |r| ensures r[i].id != r[j].id {
        if j == |s.selected| {
          assert r[i] in s.selected;
        }
      }
    }
  }

  /** Deselecting always succeeds, refunds the price and deletes exactly that
      NFT; the others keep their order. */
  lemma DeselectRemovesOnly(s: Selection, k: nat, nftCount: int)
    requires k < |s.selected| && DistinctIds(s.selected)
    ensures Toggle(s, s.selected[k], nftCount) ==
              Selection(DeleteAt(s.selected, k), s.spent - s.selected[k].price)
  {
    assert IsSelected(s.selected, s.selected[k].id);
    WithoutIdDeletes(s.selected, k);
  }

  /** With the count full, or the price over the remaining budget, clicking an
      unselected NFT changes neither the selection nor the budget. */
  lemma RejectedAddIsNoop(s: Selection, nft: Nft, nftCount: int)
    requires !IsSelected(s.selected, nft.id)
    requires |s.selected| >= nftCount || s.spent + nft.price > BUDGET_LIMIT
    ensures Toggle(s, nft, nftCount) == s
  {
  }

  /** An NFT priced above the whole budget is never added, from any state whose
      spent budget is not negative. */
  lemma OverpricedNeverAdded(s: Selection, nft: Nft, nftCount: int)
    requires 0 <= s.spent && nft.price > BUDGET_LIMIT
    requires !IsSelected(s.selected, nft.id)
    ensures Toggle(s, nft, nftCount) == s
    ensures !IsSelected(Toggle(s, nft, nftCount).selected, nft.id)
  {
  }

  /** Selecting an unselected NFT and clicking it again restores the original
      list and budget (and if the selection was rejected, both clicks are no-ops). */
  lemma SelectThenToggleRestores(s: Selection, nft: Nft, nftCount: int)
    requires !IsSelected(s.selected, nft.id)
    ensures Toggle(Toggle(s, nft, nftCount), nft, nftCount) == s
  {
    if Toggle(s, nft, nftCount) != s {
      assert nft in s.selected + [nft];
      WithoutIdConcat(s.selected, [nft], nft.id);
      WithoutAbsentId(s.selected, nft.id);
    }
  }

  /** Deselecting a selected NFT and clicking it again always re-adds it: the
      budget is restored and the same NFTs are selected, now with that one last. */
  lemma DeselectThenToggleReadds(s: Selection, k: nat, nftCount: int)
    requires k < |s.selected| && |s.selected| <= nftCount
    requires s.spent <= BUDGET_LIMIT && DistinctIds(s.selected)
    ensures Toggle(Toggle(s, s.selected[k], nftCount), s.selected[k], nftCount) ==
              Selection(DeleteAt(s.selected, k) + [s.selected[k]], s.spent)
    ensures multiset(Toggle(Toggle(s, s.selected[k], nftCount), s.selected[k], nftCount).selected)
              == multiset(s.selected)
  {
    var nft := s.selected[k];
    DeselectRemovesOnly(s, k, nftCount);
    DeleteAtDistinct(s.selected, k);
    var d := DeleteAt(s.selected, k);
    assert !IsSelected(d, nft.id) by {
      WithoutIdDeletes(s.selected, k);
    }
    MoveToEndPermutes(s.selected, k);
  }

  lemma MoveToEndPermutes(xs: seq<Nft>, k: nat)
    requires k < |xs|
    ensures multiset(DeleteAt(xs, k) + [xs[k]]) == multiset(xs)
  {
    assert xs == xs[..k] + [xs[k]] + xs[k + 1..];
  }

  /** The invariant survives a click on any catalog NFT. */
  lemma ToggleKeepsInv(s: Selection, nft: Nft, nftCount: int, catalog: seq<Nft>)
    requires CatalogOk(catalog) && Inv(s, nftCount, catalog) && nft in catalog
    ensures Inv(Toggle(s, nft, nftCount), nftCount, catalog)
  {
    ToggleKeepsCountBound(s, nft, nftCount);
    ToggleKeepsBudgetBound(s, nft, nftCount);
    ToggleKeepsTotal(s, nft, nftCount);
    ToggleKeepsDistinctIds(s, nft, nftCount);
  }

  /** Under the invariant every selected NFT costs at most the budget; in
      particular an NFT priced above `BUDGET_LIMIT` is never selected. */
  lemma SelectedWithinBudget(s: Selection, nftCount: int, catalog: seq<Nft>, n: Nft)
    requires CatalogOk(catalog) && Inv(s, nftCount, catalog) && n in s.selected
    ensures 0 <= n.price <= BUDGET_LIMIT
  {
    PriceAtMostTotal(s.selected, n);
  }

  // ---------------------------------------------------------------------
  // Properties of whole sessions

  /** From the initial state, every sequence of clicks on catalog NFTs keeps
      the count bound, the budget bound, `spent == TotalPrice(selected)` and
      distinct identifiers. */
  lemma {:induction false} SessionKeepsInv(s: Selection, nfts: seq<Nft>, nftCount: int, catalog: seq<Nft>)
    requires CatalogOk(catalog) && Inv(s, nftCount, catalog)
    requires forall n :: n in nfts ==> n in catalog
    ensures Inv(ToggleAll(s, nfts, nftCount), nftCount, catalog)
    decreases |nfts|
  {
    if nfts != [] {
      assert nfts[0] in nfts;
      ToggleKeepsInv(s, nfts[0], nftCount, catalog);
      assert forall n :: n in nfts[1..] ==> n in nfts;
      SessionKeepsInv(Toggle(s, nfts[0], nftCount), nfts[1..], nftCount, catalog);
    }
  }

  /** The initial state satisfies the invariant for any non-negative count. */
  lemma InitialInv(nftCount: int, catalog: seq<Nft>)
    requires 0 <= nftCount
    ensures Inv(Initial, nftCount, catalog)
  {
  }

  /** While submission is enabled every unselected card is disabled, and a
      click on it changes nothing: only deselecting can leave a full selection. */
  lemma SubmittableFreezesUnselected(s: Selection, nft: Nft, nftCount: int)
    requires CanSubmit(s.selected, nftCount) && !IsSelected(s.selected, nft.id)
    ensures IsDisabled(s, nft, nftCount)
    ensures Click(s, nft, nftCount) == s
  {
  }

  /** Deselecting from a full selection makes it unsubmittable at once. */
  lemma DeselectWhenFullBlocksSubmit(s: Selection, k: nat, nftCount: int)
    requires k < |s.selected| && DistinctIds(s.selected) && CanSubmit(s.selected, nftCount)
    ensures !CanSubmit(Toggle(s, s.selected[k], nftCount).selected, nftCount)
  {
    DeselectRemovesOnly(s, k, nftCount);
  }

  // ---------------------------------------------------------------------
  // The component

  /** The selector component for one contest: `nftCount` is its prop,
      `availableNfts` the catalog it shows, and `selectedNfts`/`spentBudget` its
      two state variables. */
  class Selector {
    const nftCount: nat
    const availableNfts: seq<Nft>
    var selectedNfts: seq<Nft>
    var spentBudget: int

    ghost predicate Valid()
      reads this
    {
      CatalogOk(availableNfts) && Inv(State(), nftCount, availableNfts)
    }

    function State(): Selection
      reads this
    {
      Selection(selectedNfts, spentBudget)
    }

    /** A session opens with nothing selected and nothing spent. */
    constructor (nftCount: nat, availableNfts: seq<Nft>)
      requires CatalogOk(availableNfts)
      ensures Valid()
      ensures this.nftCount == nftCount && this.availableNfts == availableNfts
      ensures State() == Initial
    {
      this.nftCount := nftCount;
      this.availableNfts := availableNfts;
      selectedNfts := [];
      spentBudget := 0;
    }

    /** `handleNFTSelect`: toggles one catalog NFT and keeps the invariant. */
    method HandleNftSelect(nft: Nft)
      requires Valid() && nft in availableNfts
      modifies this
      ensures Valid()
      ensures State() == Toggle(old(State()), nft, nftCount)
    {
      ghost var before := State();
      if IsSelected(selectedNfts, nft.id) {
        selectedNfts := WithoutId(selectedNfts, nft.id);
        spentBudget := spentBudget - nft.price;
      } else if |selectedNfts| < nftCount && spentBudget + nft.price <= BUDGET_LIMIT {
        selectedNfts := selectedNfts + [nft];
        spentBudget := spentBudget + nft.price;
      }
      ToggleKeepsInv(before, nft, nftCount, availableNfts);
    }

    /** A click on a card: ignored when the card is disabled, otherwise handed to
        `HandleNftSelect`. Either way the state is what one toggle gives. */
    method ClickCard(nft: Nft)
      requires Valid() && nft in availableNfts
      modifies this
      ensures Valid()
      ensures State() == Toggle(old(State()), nft, nftCount)
    {
      if !IsDisabled(State(), nft, nftCount) {
        HandleNftSelect(nft);
      }
    }

    /** `handleSubmit`: hands on the selection when exactly `nftCount` NFTs are
        selected, and otherwise asks for exactly `nftCount`. What is handed on
        has the required size, fits the budget and has distinct identifiers. */
    method HandleSubmit() returns (r: SubmitOutcome)
      requires Valid()
      ensures r.Submitted? <==> CanSubmit(selectedNfts, nftCount)
      ensures r.Submitted? ==>
                r.nfts == selectedNfts && |r.nfts| == nftCount &&
                TotalPrice(r.nfts) <= BUDGET_LIMIT && DistinctIds(r.nfts)
      ensures r.SelectExactly? ==> r.required == nftCount
    {
      if |selectedNfts| != nftCount {
        return SelectExactly(nftCount);
      }
      return Submitted(selectedNfts);
    }
  }

  /** The catalog the component shows while no real catalog is wired in. */
  function DemoCatalog(): seq<Nft>
  {
    [Nft(1, "Bored Ape #1234", 4500, "BAYC"),
     Nft(2, "Crypto Punk #5678", 3800, "CryptoPunks"),
     Nft(3, "Doodle #9012", 2200, "Doodles"),
     Nft(4, "Azuki #3456", 2800, "Azuki"),
     Nft(5, "Clone X #7890", 2100, "CloneX")]
  }

  lemma DemoCatalogOk()
    ensures CatalogOk(DemoCatalog())
  {
  }

  /** A three-NFT session over the demo catalog: after the first two
      (4500 + 3800), none of the other three fits the remaining 1700, so the
      entry cannot be submitted; swapping the second for the third and fourth
      gives 4500 + 2200 + 2800 = 9500, which can. */
  lemma DemoSession()
    ensures var c := DemoCatalog();
            var s := ToggleAll(Initial, c, 3);
            s == Selection([c[0], c[1]], 8300) && !CanSubmit(s.selected, 3) &&
            ToggleAll(s, [c[1], c[2], c[3]], 3) == Selection([c[0], c[2], c[3]], 9500) &&
            CanSubmit(ToggleAll(s, [c[1], c[2], c[3]], 3).selected, 3)
  {
    DemoFillsUp();
    DemoSwap();
  }

  /** The first phase of `DemoSession`: clicking all five cards in order. */
  lemma DemoFillsUp()
    ensures var c := DemoCatalog();
            ToggleAll(Initial, c, 3) == Selection([c[0], c[1]], 8300)
  {
    var c := DemoCatalog();
    var s1 := Toggle(Initial, c[0], 3);
    assert s1 == Selection([c[0]], 4500);
    var s2 := Toggle(s1, c[1], 3);
    assert !IsSelected(s1.selected, 2);
    assert s2 == Selection([c[0], c[1]], 8300);
    assert !IsSelected(s2.selected, 3) && !IsSelected(s2.selected, 4) && !IsSelected(s2.selected, 5);
    assert Toggle(s2, c[2], 3) == s2 && Toggle(s2, c[3], 3) == s2 && Toggle(s2, c[4], 3) == s2;
    assert c[1..][1..][1..][1..][1..] == [];
  }

  /** The second phase of `DemoSession`: swapping the second NFT for the
      third and fourth. */
  lemma DemoSwap()
    ensures var c := DemoCatalog();
            ToggleAll(Selection([c[0], c[1]], 8300), [c[1], c[2], c[3]], 3) ==
              Selection([c[0], c[2], c[3]], 9500)
  {
    var c := DemoCatalog();
    var s2 := Selection([c[0], c[1]], 8300);
    var t1 := Toggle(s2, c[1], 3);
    DeselectRemovesOnly(s2, 1, 3);
    assert t1 == Selection([c[0]], 4500);
    var t2 := Toggle(t1, c[2], 3);
    assert !IsSelected(t1.selected, 3);
    assert t2 == Selection([c[0], c[2]], 6700);
    var t3 := Toggle(t2, c[3], 3);
    assert !IsSelected(t2.selected, 4);
    assert t3 == Selection([c[0], c[2], c[3]], 9500);
    assert [c[3]][1..] == [];
    assert ToggleAll(t2, [c[3]], 3) == t3;
    assert [c[2], c[3]][1..] == [c[3]];
    assert ToggleAll(t1, [c[2], c[3]], 3) == t3;
    assert [c[1], c[2], c[3]][1..] == [c[2], c[3]];
  }
}
