# highfive contest front end — selection engine and contest list

This project models, in Dafny, the two pieces of logic in the highfive NFT
fantasy-contest front end that can be stated precisely:

- **The NFT selector** (`nft_selector.dfy`, module `NftSelector`). A contest
  entry picks exactly `nftCount` NFTs from a catalog under a budget of
  `BUDGET_LIMIT = 10000`. The component keeps two state variables, the selected
  NFTs (in selection order) and `spentBudget`. A click toggles one NFT:
  - a selected NFT is removed and its price refunded;
  - an unselected one is added only while fewer than `nftCount` are selected
    and its price fits the remaining budget;
  - otherwise the click is a no-op.

  A card is disabled exactly when its click would be a rejected addition. The
  entry can be submitted only with exactly `nftCount` NFTs.

  The state is a class `Selector` with those two fields. `HandleNftSelect`
  updates them in place. Its contract ties the new state to the pure function
  `Toggle` and keeps the invariant `Inv`:
  - the count is at most `nftCount`;
  - the spent budget is at most the limit;
  - the spent budget equals the sum of the selected prices;
  - identifiers are distinct;
  - every selected NFT comes from the catalog.

  The properties of `Toggle` are proved as lemmas: invariant preservation,
  round trips, no-ops and the disabled flag.
- **The contest list page** (`contest_list.dfy`, module `ContestList`). These
  are pure functions over the contract's answers and an explicit clock `now`
  (seconds):
  - the ids requested;
  - decoding of the batch read (failed reads dropped, id = position + 1);
  - `getContestStatus` (ended / active in the last day / upcoming);
  - `formatTimeLeft` (days and hours left);
  - the status filter and the per-card display rows.

Notes on the model:
- The selector's budget and sum invariants rely on two facts about the
  catalog, which `CatalogOk` states:
  - Identifiers name one record each. The removal branch refunds the price of
    the clicked record, not the stored one.
  - Prices are not negative. With a negative price, removing that NFT would
    raise `spentBudget` and could push it past the limit.

  The demo catalog meets both (`DemoCatalogOk`).
- The code keeps the selection as an ordered list. Deselecting keeps the order
  of the others, and re-adding an NFT puts it last. The model follows that
  order; it is not a set.
- With the demo catalog and `nftCount = 3`, picking the first two NFTs
  (4500 + 3800) leaves 1700. None of the other three (2200, 2800, 2100) then
  fits. `DemoSession` proves this, and proves that a different choice of three
  can be submitted.
- `contestsConfig` requests ids `1..nextContestId` inclusive. Whether the last
  id exists depends on how the contest contract numbers contests. The contract
  is not part of this model.

## Model

| member | source | states |
|---|---|---|
| `NftSelector.IsSelected` | components/contest/NFTSelector.js:23 | an NFT is selected iff some position of the list holds its id (the truthiness of `find`, also used for the card at line 59) |
| `NftSelector.FindAgreesWithFilter` | components/contest/NFTSelector.js:23-24 | `find` succeeds exactly when filtering the id out shortens the list, so the removal branch always removes something |
| `NftSelector.Toggle` | components/contest/NFTSelector.js:22-30 | after a click the NFT is selected iff it was not and it fitted (count below nftCount, price within the remaining budget); NFTs with other ids stay as they were; the budget moves by exactly the price, up when the NFT was added and down when removed, and not at all otherwise |
| `NftSelector.CanSubmit` | components/contest/NFTSelector.js:109 | the submit button is enabled iff exactly nftCount NFTs are selected, the same test as line 33; its consequences are stated by `HandleSubmit`, `SubmittableFreezesUnselected` and `DeselectWhenFullBlocksSubmit` |
| `NftSelector.WithoutId` | components/contest/NFTSelector.js:24 | the filtered list holds exactly the selected NFTs with another id, is no longer, and no longer contains the id |
| `NftSelector.WithoutIdDeletes` | components/contest/NFTSelector.js:24 | with distinct ids, filtering out the id at position k deletes exactly position k and keeps the others in order |
| `NftSelector.IsDisabled` | components/contest/NFTSelector.js:59-63 | a card is disabled iff its NFT is not selected and a click on it would leave the state unchanged (a rejected addition) |
| `NftSelector.Click` | components/contest/NFTSelector.js:74 | a click filtered by the card's disabled guard has the same effect as calling the handler directly |
| `NftSelector.ToggleKeepsCountBound` | components/contest/NFTSelector.js:26-27 | if at most nftCount NFTs were selected before a toggle, at most nftCount are after |
| `NftSelector.ToggleKeepsBudgetBound` | components/contest/NFTSelector.js:25-28 | if spentBudget was within BUDGET_LIMIT before a toggle of a non-negatively priced NFT, it still is after |
| `NftSelector.ToggleKeepsTotal` | components/contest/NFTSelector.js:23-28 | spentBudget stays the sum of the selected prices: removal subtracts and addition adds the same price |
| `NftSelector.ToggleKeepsDistinctIds` | components/contest/NFTSelector.js:23-27 | selected ids stay distinct, since a present id takes the removal branch |
| `NftSelector.DeselectRemovesOnly` | components/contest/NFTSelector.js:23-25 | clicking a selected NFT always succeeds, deletes exactly that entry (others keep their order) and refunds its price |
| `NftSelector.RejectedAddIsNoop` | components/contest/NFTSelector.js:26-29 | with the count full or the price over the remaining budget, clicking an unselected NFT changes neither list nor budget |
| `NftSelector.OverpricedNeverAdded` | components/contest/NFTSelector.js:26 | an NFT priced above 10000 is not added from any state with non-negative spending |
| `NftSelector.SelectThenToggleRestores` | components/contest/NFTSelector.js:23-28 | clicking an unselected NFT twice restores the original list and budget |
| `NftSelector.DeselectThenToggleReadds` | components/contest/NFTSelector.js:23-28 | clicking a selected NFT twice re-adds it last: same budget, same multiset of NFTs |
| `NftSelector.ToggleKeepsInv` | components/contest/NFTSelector.js:22-30 | a click on any catalog NFT preserves the whole invariant (count, budget, sum, distinct ids, catalog membership) |
| `NftSelector.SelectedWithinBudget` | components/contest/NFTSelector.js:26-28 | under the invariant every selected NFT costs between 0 and BUDGET_LIMIT, so one priced above it is never selected |
| `NftSelector.SessionKeepsInv` | components/contest/NFTSelector.js:22-30 | every sequence of clicks on catalog NFTs keeps the invariant |
| `NftSelector.InitialInv` | components/contest/NFTSelector.js:7-9 | the empty selection with nothing spent satisfies the invariant |
| `NftSelector.SubmittableFreezesUnselected` | components/contest/NFTSelector.js:60-63 | while exactly nftCount NFTs are selected (line 109 enables submit), every unselected card is disabled and a click on it leaves the selection and budget unchanged |
| `NftSelector.DeselectWhenFullBlocksSubmit` | components/contest/NFTSelector.js:109 | deselecting from a full selection disables submission at once |
| `NftSelector.DemoCatalogOk` | components/contest/NFTSelector.js:13-19 | the demo catalog has unique ids and non-negative prices |
| `NftSelector.DemoSession` | components/contest/NFTSelector.js:13-19 | over the demo catalog with three NFTs required, the first two leave no room for a third, and swapping the second for the third and fourth reaches 9500 and is submittable |
| `NftSelector.Selector.constructor` | components/contest/NFTSelector.js:6-9 | a session starts with nothing selected and nothing spent, satisfying the invariant |
| `NftSelector.Selector.HandleNftSelect` | components/contest/NFTSelector.js:22-30 | the new state is one toggle of the old and the invariant is kept |
| `NftSelector.Selector.ClickCard` | components/contest/NFTSelector.js:60-74 | a card click (guard then handler) yields one toggle of the old state and keeps the invariant |
| `NftSelector.Selector.HandleSubmit` | components/contest/NFTSelector.js:32-40 | submits iff exactly nftCount NFTs are selected; what is submitted is the selection, within budget with distinct ids; otherwise asks for exactly nftCount |
| `ContestList.RequestedIds` | pages/contest/index.js:60-66 | the requested ids are exactly 1..nextContestId, increasing, and none while nextContestId is unknown |
| `ContestList.FromRaw` | pages/contest/index.js:79-87 | the record carries the id it was read under and, field for field, the contract's answer |
| `ContestList.Tagged` | pages/contest/index.js:75-88 | the map step yields one entry per read result |
| `ContestList.TaggedAt` | pages/contest/index.js:75-88 | the entry at position i is nothing for a failed read and otherwise the contest with id i + 1 and the read fields |
| `ContestList.Present` | pages/contest/index.js:89 | the filter(Boolean) step keeps exactly the present values and is no longer than its input |
| `ContestList.DecodeKeepsAnswered` | pages/contest/index.js:74-89 | after the map and `filter(Boolean)` steps, a contest is kept iff the read at position id - 1 answered with its fields |
| `ContestList.ProcessedContests` | pages/contest/index.js:74-89 | no contests before the batch read answers; afterwards a contest is listed iff the read at position id - 1 answered with its fields |
| `ContestList.DecodeKeepsOrder` | pages/contest/index.js:74-89 | decoded contests keep the order of the reads: ids strictly increase |
| `ContestList.DecodedIdsWereRequested` | pages/contest/index.js:60-89 | every decoded contest's id is among the requested ids and its fields are the answer read under that id |
| `ContestList.ContestStatus` | pages/contest/index.js:103-109 | inactive means ended whatever the deadline; for an active contest ended iff deadline <= now, active iff 0 < deadline - now < 86400, upcoming iff deadline - now >= 86400 |
| `ContestList.FormatTimeLeft` | pages/contest/index.js:91-101 | "Ended" iff deadline - now <= 0; otherwise days >= 0, 0 <= hours < 24 and days*86400 + hours*3600 <= time left < days*86400 + (hours+1)*3600 |
| `ContestList.TimeLeftUnique` | pages/contest/index.js:97-98 | those bounds determine days and hours: any pair meeting them is the one computed |
| `ContestList.TimeLeftAgreesWithStatus` | pages/contest/index.js:91-109 | for an active contest the time left reads "Ended" exactly when the status is ended |
| `ContestList.StatusBoundsDays` | pages/contest/index.js:91-109 | an active-status contest has zero whole days left and an upcoming one at least one |
| `ContestList.InactiveBeforeDeadline` | pages/contest/index.js:91-109 | a deactivated contest before its deadline is listed as ended while its time left is still days and hours |
| `ContestList.Matches` | pages/contest/index.js:111-113 | "all" passes every contest; "ended" passes the inactive ones and those past their deadline; "active" the active ones with less than a day left; "upcoming" the active ones with a day or more left |
| `ContestList.FilteredContests` | pages/contest/index.js:111-114 | the filter keeps exactly the contests whose status matches, as a subsequence of the input; under "all" it keeps the whole list |
| `ContestList.FilterKeepsIdOrder` | pages/contest/index.js:111-114 | filtering a list with increasing ids keeps ids increasing |
| `ContestList.DisplayContests` | pages/contest/index.js:116-123 | every card's contest is in the list and passes the filter, and every contest that passes has a card; each card carries its contest's status and time left; under a status filter every card has that status; under "all" card i holds contest i |
| `ContestList.DisplayedMatchFilter` | pages/contest/index.js:74-123 | from the batch read: card ids increase; under a status filter every card has that status; under "all" the cards hold the decoded contests one for one, in order |
| `ContestList.PageListsMatchingAnswered` | pages/contest/index.js:74-114 | the display list holds exactly the answered reads that pass the filter, with id = position + 1, in increasing id order |
| `ContestList.ClockTickFlipsStatus` | pages/contest/index.js:103-109 | with one second between clock reads, a contest classified active with 0d 0h left is classified ended at the next read |

## Left out

- Rendering, animation and styling: all JSX, `framer-motion`, Tailwind classes, and the layout, header, footer, modal, button, card and contest-card components.
- Wallet and contract plumbing: the wagmi hooks and `config/index.js`. The batch read enters only as a sequence of optional contest records. The `error` field that turns on the error banner (pages/contest/index.js:166) and the loading state are not modelled.
- `formatEther`, `toLocaleDateString` and `toLocaleString`: library and locale formatting. Entry fee and prize pool stay raw integers.
- `Date.now()`: replaced by the parameter `now` in whole seconds. The division by 1000 that produces it is not modelled.
- `ContestList.DisplayContests`, `ContestList.DisplayedMatchFilter`, `ContestList.PageListsMatchingAnswered`, `ContestList.TimeLeftAgreesWithStatus`: one clock reading serves every call in a render. The source reads the clock anew in each call: in every status test of the filter (pages/contest/index.js:105, 113), in each card's time left (:92, :121) and in each card's status (:105, :122). If the clock moves between reads, a card kept by the "active" filter can show status "ended" next to "0d 0h", as `ClockTickFlipsStatus` shows. These contracts hold only for a single reading.
- `ContestList.FormatTimeLeft`: returns the days and hours as a value rather than the rendered string `"<days>d <hours>h"`, because number-to-decimal conversion is presentation.
- `Number(...)` on `uint256` values: modelled as exact. Deadlines or counts above 2^53 would lose precision in the source, and the model does not capture that.
- The filter string: modelled as `All` or one `Status`. The buttons offer only "all", "active" and "upcoming". A string that is none of the statuses would match nothing, and the model does not represent such strings.
- The heading text chosen by the filter (pages/contest/index.js:132-134): presentation only.
- The hard-coded catalog in `useEffect` (components/contest/NFTSelector.js:11-20): used only as the example input `DemoCatalog`. The selector takes its catalog as a constructor argument. The image URL field is dropped.
- React's asynchronous state updates: each click is modelled as one atomic update of both state variables. Two clicks handled against the same stale render are not modelled.
- `NftSelector.Selector.HandleSubmit`: the success alert and console output are left out. The result only says whether the selection is handed on, and no submission is performed, as in the source.
- The contest card (components/contest/ContestCard.js) is presentation and not modelled. It reads `totalPrize` and `participants` (lines 10-12), which the display rows of pages/contest/index.js:116-123 never set. `DisplayContest` holds only what those lines produce.
- `pages/awardprize.js`, `pages/contest/create.js`, `pages/contest/[id].js`, `pages/leaderboard.js` and `pages/index.js`: form state, contract writes, static placeholder data, or a second copy of the time-left formatting. None of them is part of this model.
- Weighted and normalised point scoring: no modelled file contains it, and it would need floating point.
