/** The contest list page: it asks the contest contract for every contest id
    from 1 up to and including `nextContestId`, decodes the answers into contest records, classifies
    each contest as ended, active or upcoming relative to the current time, and
    shows those matching the chosen filter together with the time left.
    The clock is a parameter `now`, in whole seconds since the epoch. */
module ContestList {

  const SECONDS_PER_DAY: int := 86400
  const SECONDS_PER_HOUR: int := 3600

  datatype Option<T> = None | Some(value: T)

  /** A contest as the contract's `contests(uint256)` view returns it. */
  datatype RawContest = RawContest(title: string, deadline: nat, entryFee: nat,
                                   prizePool: nat, nftCount: nat, active: bool)

  /** A contest as the page keeps it: the raw fields plus the id it was read under. */
  datatype Contest = Contest(id: int, title: string, deadline: nat, entryFee: nat,
                             prizePool: nat, nftCount: nat, active: bool)

  datatype Status = Ended | Active | Upcoming

  /** The filter buttons: every contest, or those with one status. */
  datatype Filter = All | Only(status: Status)

  /** What the card shows as time left: "Ended", or whole days and hours. */
  datatype TimeLeft = EndedLabel | DaysHours(days: int, hours: int)

  /** A contest as handed to its card, with its time left and status. */
  datatype DisplayContest = DisplayContest(contest: Contest, timeLeft: TimeLeft, status: Status)

  // ---------------------------------------------------------------------
  // Reading the contests

  /** The ids whose contests are read (`contestsConfig`): 1 up to and
      including `nextContestId`, or none while it is unknown. */
  function RequestedIds(nextContestId: Option<nat>): (ids: seq<int>)
    ensures nextContestId.None? ==> ids == []
    ensures nextContestId.Some? ==> |ids| == nextContestId.value
    ensures forall k :: k in ids <==> nextContestId.Some? && 1 <= k <= nextContestId.value
    ensures forall i, j :: 0 <= i < j < |ids| ==> ids[i] < ids[j]
  {
    match nextContestId
    case None => []
    case Some(n) =>
      var ids := seq(n, i => i + 1);
      RangeMembers(n, ids);
      ids
  }

  lemma RangeMembers(n: nat, ids: seq<int>)
    requires ids == seq(n, i => i + 1)
    ensures forall k :: k in ids <==> 1 <= k <= n
  {
    forall k | 1 <= k <= n ensures k in ids {
      assert ids[k - 1] == k;
    }
  }

  /** The record for the contest read under `id`. */
  function FromRaw(id: int, c: RawContest): (r: Contest)
    ensures r.id == id
    ensures RawContest(r.title, r.deadline, r.entryFee, r.prizePool, r.nftCount, r.active) == c
  {
    Contest(id, c.title, c.deadline, c.entryFee, c.prizePool, c.nftCount, c.active)
  }

  /** The `map` step of `processedContests`: the answer at position `i` becomes
      the contest with id `i + 1`, a failed read becomes nothing. */
  function Tagged(results: seq<Option<RawContest>>): (r: seq<Option<Contest>>)
    ensures |r| == |results|
  {
    if results == [] then []
    else Tagged(results[..|results| - 1]) +
         [match results[|results| - 1]
          case None => None
          case Some(c) => Some(FromRaw(|results|, c))]
  }

  /** The `filter(Boolean)` step: the present values, in order. */
  function Present<T(!new)>(xs: seq<Option<T>>): (r: seq<T>)
    ensures forall x :: x in r <==> Some(x) in xs
    ensures |r| <= |xs|
  {
    if xs == [] then []
    else if xs[0].Some? then [xs[0].value] + Present(xs[1..])
    else Present(xs[1..])
  }

  /** `processedContests`: no contests while the batch read has not answered. */
  function ProcessedContests(data: Option<seq<Option<RawContest>>>): (r: seq<Contest>)
    ensures data.None? ==> r == []
    ensures data.Some? ==> forall c :: c in r <==>
              1 <= c.id <= |data.value| && data.value[c.id - 1].Some? &&
              c == FromRaw(c.id, data.value[c.id - 1].value)
  {
    match data
    case None => []
    case Some(results) =>
      DecodeKeepsAnswered(results);
      Present(Tagged(results))
  }

  /** Ids increase strictly along `cs`. */
  ghost predicate IdsIncreasing(cs: seq<Contest>)
  {
    forall i, j :: 0 <= i < j < |cs| ==> cs[i].id < cs[j].id
  }

  // ---------------------------------------------------------------------
  // Classifying contests

  /** `getContestStatus`: an inactive contest has ended whatever its deadline;
      an active one has ended once the deadline is reached, is active in its
      last day and upcoming before that. */
  function ContestStatus(deadline: int, active: bool, now: int): (r: Status)
    ensures !active ==> r == Ended
    ensures active ==> (r == Ended <==> deadline <= now)
    ensures active ==> (r == Active <==> 0 < deadline - now < SECONDS_PER_DAY)
    ensures active ==> (r == Upcoming <==> SECONDS_PER_DAY <= deadline - now)
  {
    if !active then Ended
    else if deadline <= now then Ended
    else if deadline - now < SECONDS_PER_DAY then Active
    else Upcoming
  }

  /** `formatTimeLeft`: "Ended" once the deadline is reached; otherwise the
      seconds left, split into whole days and the whole hours of the rest. */
  function FormatTimeLeft(deadline: int, now: int): (r: TimeLeft)
    ensures r.EndedLabel? <==> deadline - now <= 0
    ensures r.DaysHours? ==>
              0 <= r.days && 0 <= r.hours < 24 &&
              r.days * SECONDS_PER_DAY + r.hours * SECONDS_PER_HOUR <= deadline - now <
              r.days * SECONDS_PER_DAY + (r.hours + 1) * SECONDS_PER_HOUR
  {
    var timeLeft := deadline - now;
    if timeLeft <= 0 then EndedLabel
    else
      var days := timeLeft / SECONDS_PER_DAY;
      var hours := (timeLeft % SECONDS_PER_DAY) / SECONDS_PER_HOUR;
      DaysHours(days, hours)
  }

  /** Whether a contest passes the filter. */
  predicate Matches(f: Filter, c: Contest, now: int)
    ensures f.All? ==> Matches(f, c, now)
    ensures f == Only(Ended) ==> (Matches(f, c, now) <==> !c.active || c.deadline <= now)
    ensures f == Only(Active) ==>
              (Matches(f, c, now) <==> c.active && 0 < c.deadline - now < SECONDS_PER_DAY)
    ensures f == Only(Upcoming) ==>
              (Matches(f, c, now) <==> c.active && SECONDS_PER_DAY <= c.deadline - now)
  {
    f.All? || ContestStatus(c.deadline, c.active, now) == f.status
  }

  /** `xs` is a subsequence of `ys`: it is `ys` with some elements dropped. */
  ghost predicate IsSubsequence<T>(xs: seq<T>, ys: seq<T>)
    decreases |ys|
  {
    xs == [] ||
    (ys != [] &&
     ((xs[0] == ys[0] && IsSubsequence(xs[1..], ys[1..])) || IsSubsequence(xs, ys[1..])))
  }

  /** `filteredContests`: the contests that pass the filter, in their order. */
  function FilteredContests(cs: seq<Contest>, f: Filter, now: int): (r: seq<Contest>)
    ensures forall c :: c in r <==> c in cs && Matches(f, c, now)
    ensures IsSubsequence(r, cs)
    ensures f.All? ==> r == cs
  {
    if cs == [] then []
    else if Matches(f, cs[0], now) then [cs[0]] + FilteredContests(cs[1..], f, now)
    else FilteredContests(cs[1..], f, now)
  }

  /** `displayContests`: one card per contest that passes the filter, in
      order, each carrying its contest's time left and status. Under a status
      filter every card shows that status; under `All` the cards are the
      contests themselves, one for one. */
  function DisplayContests(cs: seq<Contest>, f: Filter, now: int): (r: seq<DisplayContest>)
    ensures forall i :: 0 <= i < |r| ==> r[i].contest in cs && Matches(f, r[i].contest, now)
    ensures forall c :: c in cs && Matches(f, c, now) ==>
              exists i :: 0 <= i < |r| && r[i].contest == c
    ensures forall i :: 0 <= i < |r| ==>
              r[i].status == ContestStatus(r[i].contest.deadline, r[i].contest.active, now) &&
              r[i].timeLeft == FormatTimeLeft(r[i].contest.deadline, now)
    ensures f.Only? ==> forall i :: 0 <= i < |r| ==> r[i].status == f.status
    ensures f.All? ==> |r| == |cs| && forall i :: 0 <= i < |r| ==> r[i].contest == cs[i]
  {
    var shown := FilteredContests(cs, f, now);
    var r := seq(|shown|, i requires 0 <= i < |shown| =>
      DisplayContest(shown[i], FormatTimeLeft(shown[i].deadline, now),
                     ContestStatus(shown[i].deadline, shown[i].active, now)));
    assert forall c :: c in shown ==> exists i :: 0 <= i < |r| && r[i].contest == c by {
      forall c | c in shown ensures exists i :: 0 <= i < |r| && r[i].contest == c {
        var i :| 0 <= i < |shown| && shown[i] == c;
        assert r[i].contest == c;
      }
    }
    r
  }

  // ---------------------------------------------------------------------
  // Lemmas: decoding

  lemma {:induction false} PresentConcat<T(!new)>(xs: seq<Option<T>>, ys: seq<Option<T>>)
    ensures Present(xs + ys) == Present(xs) + Present(ys)
  {
    if xs == [] {
      assert xs + ys == ys;
    } else {
      assert (xs + ys)[0] == xs[0] && (xs + ys)[1..] == xs[1..] + ys;
      PresentConcat(xs[1..], ys);
    }
  }

  /** The tag at position `i` is the answer at `i`, with id `i + 1`. */
  lemma {:induction false} TaggedAt(results: seq<Option<RawContest>>, i: nat)
    requires i < |results|
    ensures results[i].None? ==> Tagged(results)[i].None?
    ensures results[i].Some? ==> Tagged(results)[i] == Some(FromRaw(i + 1, results[i].value))
  {
    if i < |results| - 1 {
      TaggedAt(results[..|results| - 1], i);
    }
  }

  /** Tagging then keeping the present entries keeps exactly the answered
      reads: a contest is kept iff the read at position `id - 1` answered with
      its fields. */
  lemma DecodeKeepsAnswered(results: seq<Option<RawContest>>)
    ensures forall c :: c in Present(Tagged(results)) <==>
              1 <= c.id <= |results| && results[c.id - 1].Some? &&
              c == FromRaw(c.id, results[c.id - 1].value)
  {
    forall c: Contest {
      DecodeKeepsAnsweredAt(results, c);
    }
  }

  lemma DecodeKeepsAnsweredAt(results: seq<Option<RawContest>>, c: Contest)
    ensures c in Present(Tagged(results)) <==>
              1 <= c.id <= |results| && results[c.id - 1].Some? &&
              c == FromRaw(c.id, results[c.id - 1].value)
  {
    if c in Present(Tagged(results)) {
      KeptWasAnswered(results, c);
    }
    if 1 <= c.id <= |results| && results[c.id - 1].Some? &&
       c == FromRaw(c.id, results[c.id - 1].value) {
      AnsweredIsKept(results, c.id - 1);
    }
  }

  lemma KeptWasAnswered(results: seq<Option<RawContest>>, c: Contest)
    requires c in Present(Tagged(results))
    ensures 1 <= c.id <= |results| && results[c.id - 1].Some? &&
            c == FromRaw(c.id, results[c.id - 1].value)
  {
    var i := PresentIndex(Tagged(results), c);
    TagWasAnswered(results, i, c);
  }

  lemma PresentIndex<T(!new)>(xs: seq<Option<T>>, x: T) returns (i: nat)
    requires x in Present(xs)
    ensures i < |xs| && xs[i] == Some(x)
  {
    assert Some(x) in xs;
    i :| i < |xs| && xs[i] == Some(x);
  }

  lemma TagWasAnswered(results: seq<Option<RawContest>>, i: nat, c: Contest)
    requires i < |results| && Tagged(results)[i] == Some(c)
    ensures 1 <= c.id <= |results| && results[c.id - 1].Some? &&
            c == FromRaw(c.id, results[c.id - 1].value)
  {
    TaggedAt(results, i);
    assert c.id == i + 1;
  }

  lemma AnsweredIsKept(results: seq<Option<RawContest>>, i: nat)
    requires i < |results| && results[i].Some?
    ensures FromRaw(i + 1, results[i].value) in Present(Tagged(results))
  {
    TaggedAt(results, i);
    assert Tagged(results)[i] == Some(FromRaw(i + 1, results[i].value));
  }

  /** Decoding keeps the order of the reads: ids increase along the list. */
  lemma {:induction false} DecodeKeepsOrder(results: seq<Option<RawContest>>)
    ensures IdsIncreasing(ProcessedContests(Some(results)))
  {
    if results != [] {
      var front := results[..|results| - 1];
      var last := Tagged(results)[|results| - 1 ..];
      assert Tagged(results) == Tagged(front) + last;
      PresentConcat(Tagged(front), last);
      DecodeKeepsOrder(front);
      var kept := Present(Tagged(front));
      assert forall c :: c in kept ==> c.id <= |front|;
      var r := Present(Tagged(results));
      forall i, j | 0 <= i < j < |r| ensures r[i].id < r[j].id {
        if j >= |kept| {
          assert r[i] in kept;
          assert Present(last) == [] || Present(last) == [FromRaw(|results|, results[|results| - 1].value)];
        }
      }
    }
  }

  /** Every decoded contest was requested: its id is among `RequestedIds`
      when the batch read answers one result per requested id. */
  lemma DecodedIdsWereRequested(nextContestId: nat, results: seq<Option<RawContest>>, c: Contest)
    requires |results| == |RequestedIds(Some(nextContestId))|
    requires c in ProcessedContests(Some(results))
    ensures c.id in RequestedIds(Some(nextContestId))
    ensures results[c.id - 1] == Some(RawContest(c.title, c.deadline, c.entryFee,
                                                 c.prizePool, c.nftCount, c.active))
  {
  }

  // ---------------------------------------------------------------------
  // Lemmas: classification

  /** The days and hours of `FormatTimeLeft` are the only pair satisfying its
      bounds. */
  lemma TimeLeftUnique(deadline: int, now: int, days: int, hours: int)
    requires 0 <= hours < 24
    requires days * SECONDS_PER_DAY + hours * SECONDS_PER_HOUR <= deadline - now <
             days * SECONDS_PER_DAY + (hours + 1) * SECONDS_PER_HOUR
    requires 0 < deadline - now
    ensures FormatTimeLeft(deadline, now) == DaysHours(days, hours)
  {
  }

  /** For an active contest the card says "Ended" exactly when the status is
      ended: both test `deadline <= now`. */
  lemma TimeLeftAgreesWithStatus(deadline: int, now: int)
    ensures FormatTimeLeft(deadline, now).EndedLabel? <==>
              ContestStatus(deadline, true, now) == Ended
  {
  }

  /** An active contest is in its last day: zero whole days are left; an
      upcoming one has at least one. */
  lemma StatusBoundsDays(deadline: int, active: bool, now: int)
    ensures ContestStatus(deadline, active, now) == Active ==>
              FormatTimeLeft(deadline, now).DaysHours? && FormatTimeLeft(deadline, now).days == 0
    ensures ContestStatus(deadline, active, now) == Upcoming ==>
              FormatTimeLeft(deadline, now).DaysHours? && FormatTimeLeft(deadline, now).days >= 1
  {
  }

  /** A deactivated contest is listed as ended while its card can still show
      time left: the two labels disagree before the deadline. */
  lemma InactiveBeforeDeadline(deadline: int, now: int)
    requires now < deadline
    ensures ContestStatus(deadline, false, now) == Ended
    ensures FormatTimeLeft(deadline, now).DaysHours?
  {
  }

  /** Filtering keeps the contests in increasing id order. */
  lemma {:induction false} FilterKeepsIdOrder(cs: seq<Contest>, f: Filter, now: int)
    requires IdsIncreasing(cs)
    ensures IdsIncreasing(FilteredContests(cs, f, now))
  {
    if cs != [] {
      var rest := cs[1..];
      assert IdsIncreasing(rest) by {
        forall i, j | 0 <= i < j < |rest| ensures rest[i].id < rest[j].id {
          assert rest[i] == cs[i + 1] && rest[j] == cs[j + 1];
        }
      }
      FilterKeepsIdOrder(rest, f, now);
      var tail := FilteredContests(rest, f, now);
      forall c | c in tail ensures cs[0].id < c.id {
        var j :| 0 <= j < |rest| && rest[j] == c;
        assert cs[j + 1] == c;
      }
    }
  }

  /** The cards of the page, from the batch read: under a status filter
      every card carries that status; under `All` the cards are the decoded
      contests one for one; either way the cards' ids increase. */
  lemma DisplayedMatchFilter(results: seq<Option<RawContest>>, f: Filter, now: int)
    ensures var r := DisplayContests(ProcessedContests(Some(results)), f, now);
            (forall i, j :: 0 <= i < j < |r| ==> r[i].contest.id < r[j].contest.id) &&
            (f.Only? ==> forall i :: 0 <= i < |r| ==> r[i].status == f.status) &&
            (f.All? ==> |r| == |ProcessedContests(Some(results))| &&
                        forall i :: 0 <= i < |r| ==>
                          r[i].contest == ProcessedContests(Some(results))[i])
  {
    var cs := ProcessedContests(Some(results));
    DecodeKeepsOrder(results);
    FilterKeepsIdOrder(cs, f, now);
    var shown := FilteredContests(cs, f, now);
    var r := DisplayContests(cs, f, now);
    assert forall i :: 0 <= i < |r| ==> r[i].contest == shown[i];
  }

  /** The clock is read once per call: one second between the filter's reading
      and the card's readings turns a contest the 'active' filter kept into one
      whose card says 'ended', next to a time left of 0d 0h. */
  lemma ClockTickFlipsStatus(deadline: int)
    ensures ContestStatus(deadline, true, deadline - 1) == Active
    ensures FormatTimeLeft(deadline, deadline - 1) == DaysHours(0, 0)
    ensures ContestStatus(deadline, true, deadline) == Ended
  {
  }

  /** The page as a whole: decoding then filtering lists the answered contests
      that pass the filter, in increasing id order. */
  lemma PageListsMatchingAnswered(results: seq<Option<RawContest>>, f: Filter, now: int)
    ensures var shown := FilteredContests(ProcessedContests(Some(results)), f, now);
            IdsIncreasing(shown) &&
            forall c :: c in shown <==>
              1 <= c.id <= |results| && results[c.id - 1].Some? &&
              c == FromRaw(c.id, results[c.id - 1].value) && Matches(f, c, now)
  {
    DecodeKeepsOrder(results);
    FilterKeepsIdOrder(ProcessedContests(Some(results)), f, now);
  }
}
