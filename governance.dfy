// The proposal/vote ledger: proposals with a time-derived status, one vote per (voter, proposal),
// token-weighted tallies and per-user token balances. The host clock (epoch seconds) and the
// caller's identity are parameters of each operation.
module Governance {
  import opened Types
  import opened Calendar
  import opened DateParse

  /** A caller identity: the principal's raw bytes, compared for equality only. */
  datatype Principal = Principal(bytes: seq<bv8>)

  datatype Status = Pending | Active | Ended

  datatype Proposal = Proposal(
    id: nat,
    title: string,
    description: string,
    creator: Principal,
    createdAt: nat,
    startDate: nat,
    endDate: nat,
    votesFor: nat,
    votesAgainst: nat,
    status: Status)

  datatype Vote = Vote(user: Principal, proposalId: nat, votePower: nat, isFor: bool)

  /** The status update_status assigns at time `now`: exactly one of the three holds. */
  function StatusAt(now: nat, startDate: nat, endDate: nat): (s: Status)
    ensures s == Pending <==> now < startDate
    ensures s == Active <==> startDate <= now <= endDate
    ensures s == Ended <==> startDate <= now && endDate < now
  {
    if now < startDate then Pending
    else if now <= endDate then Active
    else Ended
  }

  function StatusRank(s: Status): nat {
    match s
    case Pending => 0
    case Active => 1
    case Ended => 2
  }

  /** Status only moves forward in time: Pending, then Active, then Ended, never back. */
  lemma StatusMonotone(t1: nat, t2: nat, startDate: nat, endDate: nat)
    requires t1 <= t2
    ensures StatusRank(StatusAt(t1, startDate, endDate)) <= StatusRank(StatusAt(t2, startDate, endDate))
  {
  }

  /** The proposal as get_proposal and vote_on_proposal see it: status recomputed, nothing else touched. */
  function Refreshed(p: Proposal, now: nat): (q: Proposal)
    ensures q.(status := p.status) == p
    ensures q.status == Pending <==> now < p.startDate
    ensures q.status == Active <==> p.startDate <= now <= p.endDate
    ensures q.status == Ended <==> p.startDate <= now && p.endDate < now
  {
    p.(status := StatusAt(now, p.startDate, p.endDate))
  }

  /** Counting a vote raises exactly one tally, by the vote's tokens. */
  function AddVote(p: Proposal, isFor: bool, tokens: nat): (q: Proposal)
    ensures q.votesFor + q.votesAgainst == p.votesFor + p.votesAgainst + tokens
    ensures isFor ==> q.votesFor == p.votesFor + tokens && q.votesAgainst == p.votesAgainst
    ensures !isFor ==> q.votesAgainst == p.votesAgainst + tokens && q.votesFor == p.votesFor
    ensures q.(votesFor := p.votesFor, votesAgainst := p.votesAgainst) == p
  {
    if isFor then p.(votesFor := p.votesFor + tokens) else p.(votesAgainst := p.votesAgainst + tokens)
  }

  /** A caller's balance, where an identity never seen has the materialised default of 0. */
  function BalanceOf(balances: map<Principal, nat>, who: Principal): (b: nat)
    ensures who in balances ==> b == balances[who]
    ensures who !in balances ==> b == 0
  {
    if who in balances then balances[who] else 0
  }

  /** A stored vote's power is at most its proposal's tally on the side it was cast. */
  predicate Counted(v: Vote, p: Proposal) {
    if v.isFor then v.votePower <= p.votesFor else v.votePower <= p.votesAgainst
  }

  /**
   * The date checks of create_proposal: both dates parse, the end is after the start, and the
   * start is not after the current time (the check written as "start date must be in the future"
   * rejects a start day later than today).
   */
  function ValidateWindow(startText: string, endText: string, now: nat): (r: Result<(nat, nat)>)
    ensures r.Err? ==> r.error == InvalidInput
    ensures r.Ok? <==>
      ParseDate(startText).Ok? && ParseDate(endText).Ok? &&
      ParseDate(startText).value.timestamp < ParseDate(endText).value.timestamp &&
      ParseDate(startText).value.timestamp <= now
    ensures r.Ok? ==>
      r.value == (ParseDate(startText).value.timestamp, ParseDate(endText).value.timestamp) &&
      r.value.0 % SecondsPerDay == 0 && r.value.1 % SecondsPerDay == 0
  {
    var start := ParseDate(startText);
    var end := ParseDate(endText);
    if start.Err? || end.Err? then Err(InvalidInput)
    else if end.value.timestamp <= start.value.timestamp then Err(InvalidInput)
    else if start.value.timestamp > now then Err(InvalidInput)
    else Ok((start.value.timestamp, end.value.timestamp))
  }

  /**
   * The creation-time comparison of today's date against a start date, done field by field on
   * (year, month, day), is the same as comparing the start's timestamp with the clock.
   */
  lemma StartAfterTodayIff(now: nat, cy: nat, cm: nat, cd: nat, start: ParsedDate)
    requires cy >= EpochYear && ValidDate(cy, cm, cd) && DayNumber(cy, cm, cd) == now / SecondsPerDay
    requires AcceptedDate(start.year, start.month, start.day)
    requires start.timestamp == Timestamp(start.year, start.month, start.day)
    ensures DateBefore(cy, cm, cd, start.year, start.month, start.day) <==> start.timestamp > now
  {
    DateBeforeIff(cy, cm, cd, start.year, start.month, start.day);
    var k := DayNumber(start.year, start.month, start.day);
    var q := now / SecondsPerDay;
    assert now == SecondsPerDay * q + now % SecondsPerDay;
    if q < k {
      assert SecondsPerDay * (q + 1) <= SecondsPerDay * k;
    } else {
      assert SecondsPerDay * k <= SecondsPerDay * q;
    }
  }

  /**
   * Ledger consistency: proposals sit under their own id, which the counter has already issued
   * (so 0 is never a key), with a window whose end is after its start; every vote sits under its
   * (voter, proposal) key, refers to a stored proposal and has a power at most that proposal's tally on its side.
   */
  ghost predicate LedgerInvariant(idCounter: nat, proposals: map<nat, Proposal>, votes: map<(Principal, nat), Vote>) {
    (forall id | id in proposals ::
      1 <= id <= idCounter && proposals[id].id == id && proposals[id].startDate < proposals[id].endDate) &&
    (forall key | key in votes ::
      key.1 in proposals && votes[key].user == key.0 && votes[key].proposalId == key.1 &&
      Counted(votes[key], proposals[key.1]))
  }

  /** Re-storing a proposal with its status recomputed and, optionally, one more vote counted keeps the invariant. */
  lemma VoteKeepsInvariant(idCounter: nat, proposals: map<nat, Proposal>, votes: map<(Principal, nat), Vote>,
                           caller: Principal, now: nat, id: nat, isFor: bool, tokens: nat)
    requires LedgerInvariant(idCounter, proposals, votes) && id in proposals
    ensures LedgerInvariant(idCounter, proposals[id := Refreshed(proposals[id], now)], votes)
    ensures LedgerInvariant(idCounter, proposals[id := AddVote(Refreshed(proposals[id], now), isFor, tokens)],
                            votes[(caller, id) := Vote(caller, id, tokens, isFor)])
  {
  }

  /**
   * For dates written out in full, the window is accepted exactly when the start is before the
   * end in calendar order and the start is not after the clock: a start day later than today is
   * rejected.
   */
  lemma WindowOfWrittenDates(sy: nat, sm: nat, sd: nat, ey: nat, em: nat, ed: nat, now: nat)
    requires AcceptedDate(sy, sm, sd) && sy < U32Limit
    requires AcceptedDate(ey, em, ed) && ey < U32Limit
    ensures ValidateWindow(FormatDate(sy, sm, sd), FormatDate(ey, em, ed), now).Ok? <==>
      DateBefore(sy, sm, sd, ey, em, ed) && Timestamp(sy, sm, sd) <= now
  {
    ParseFormatRoundTrip(sy, sm, sd);
    ParseFormatRoundTrip(ey, em, ed);
    DateBeforeIff(sy, sm, sd, ey, em, ed);
  }

  class Ledger {
    /** The last issued proposal id; the persisted cell starts at 1. */
    var idCounter: nat
    var proposals: map<nat, Proposal>
    var votes: map<(Principal, nat), Vote>
    var userTokens: map<Principal, nat>

    /**
     * Ledger consistency, as LedgerInvariant states it of the proposal and vote stores. Every
     * balance is 0: entries are only ever created at 0 and debited, nothing credits them.
     */
    ghost predicate Valid()
      reads this
    {
      LedgerInvariant(idCounter, proposals, votes) &&
      forall who | who in userTokens :: userTokens[who] == 0
    }

    constructor ()
      ensures Valid()
      ensures idCounter == 1 && proposals == map[] && votes == map[] && userTokens == map[]
    {
      idCounter := 1;
      proposals := map[];
      votes := map[];
      userTokens := map[];
    }

    /** get_proposal: id 0 is invalid, an absent id is not found, else the stored record with its status recomputed. */
    function GetProposal(id: nat, now: nat): (r: Result<Proposal>)
      reads this
      ensures r.Ok? <==> id != 0 && id in proposals
      ensures r == Err(InvalidInput) <==> id == 0
      ensures r == Err(NotFound) <==> id != 0 && id !in proposals
      ensures r.Ok? ==>
        var p := proposals[id];
        r.value.(status := p.status) == p &&
        (r.value.status == Pending <==> now < p.startDate) &&
        (r.value.status == Active <==> p.startDate <= now <= p.endDate) &&
        (r.value.status == Ended <==> p.startDate <= now && p.endDate < now)
    {
      if id == 0 then Err(InvalidInput)
      else if id !in proposals then Err(NotFound)
      else Ok(Refreshed(proposals[id], now))
    }

    /**
     * create_proposal: validate both dates, issue the next id and store a proposal with zero
     * tallies. The insert always takes place; when the id was already present the old record is
     * overwritten and AlreadyExists is reported.
     */
    method CreateProposal(caller: Principal, now: nat, title: string, description: string,
                          startText: string, endText: string) returns (r: Result<Proposal>)
      modifies this
      ensures votes == old(votes) && userTokens == old(userTokens)
      ensures
        var w := ValidateWindow(startText, endText, now);
        if w.Err? then
          r == Err(InvalidInput) && idCounter == old(idCounter) && proposals == old(proposals)
        else
          var proposal := Proposal(idCounter, title, description, caller, now, w.value.0, w.value.1, 0, 0, Pending);
          idCounter == old(idCounter) + 1 &&
          proposals == old(proposals)[idCounter := proposal] &&
          r == if idCounter in old(proposals) then Err(AlreadyExists) else Ok(proposal)
      ensures r.Ok? ==> r.value.startDate <= now && r.value.startDate < r.value.endDate
      ensures r.Ok? ==> GetProposal(r.value.id, now).Ok? && GetProposal(r.value.id, now).value.status != Pending
      ensures old(Valid()) ==> Valid() && r != Err(AlreadyExists)
    {
      var currentYear, currentMonth, currentDay := CurrentDate(now);
      var start := ParseDate(startText);
      if start.Err? {
        return Err(start.error);
      }
      var end := ParseDate(endText);
      if end.Err? {
        return Err(end.error);
      }
      if end.value.timestamp <= start.value.timestamp {
        return Err(InvalidInput);
      }
      var s := start.value;
      StartAfterTodayIff(now, currentYear, currentMonth, currentDay, s);
      if currentYear < s.year || (currentYear == s.year && (currentMonth < s.month ||
           (currentMonth == s.month && currentDay < s.day))) {
        return Err(InvalidInput);
      }
      idCounter := idCounter + 1;
      var id := idCounter;
      var proposal := Proposal(id, title, description, caller, now, s.timestamp, end.value.timestamp, 0, 0, Pending);
      var previous := id in proposals;
      proposals := proposals[id := proposal];
      if previous {
        return Err(AlreadyExists);
      }
      r := Ok(proposal);
    }

    /**
     * vote_on_proposal, in the order the source performs its steps: materialise the caller's
     * balance (0 when new), check it, look the proposal up and store it back with its status
     * recomputed, reject an ended or not-yet-started proposal, add the tokens to one tally,
     * insert the vote (replacing an earlier vote under the same key, which is then reported as
     * AlreadyExists with the tally already raised), and only on success debit the balance.
     */
    method VoteOnProposal(caller: Principal, now: nat, proposalId: nat, isFor: bool, tokens: nat)
      returns (r: Result<()>)
      modifies this
      ensures idCounter == old(idCounter)
      ensures
        var balance := BalanceOf(old(userTokens), caller);
        var materialised := old(userTokens)[caller := balance];
        if balance < tokens then
          r == Err(InsufficientTokens) &&
          userTokens == materialised && proposals == old(proposals) && votes == old(votes)
        else if proposalId !in old(proposals) then
          r == Err(NotFound) &&
          userTokens == materialised && proposals == old(proposals) && votes == old(votes)
        else
          var p := Refreshed(old(proposals)[proposalId], now);
          if p.status == Ended || p.startDate > now then
            r == Err(if p.status == Ended then VotingEnded else VotingNotStarted) &&
            userTokens == materialised && proposals == old(proposals)[proposalId := p] && votes == old(votes)
          else
            proposals == old(proposals)[proposalId := AddVote(p, isFor, tokens)] &&
            votes == old(votes)[(caller, proposalId) := Vote(caller, proposalId, tokens, isFor)] &&
            if (caller, proposalId) in old(votes) then
              r == Err(AlreadyExists) && userTokens == materialised
            else
              r == Ok(()) && userTokens == old(userTokens)[caller := balance - tokens]
      ensures r.Ok? ==>
        (caller, proposalId) !in old(votes) && (caller, proposalId) in votes &&
        BalanceOf(userTokens, caller) + tokens == BalanceOf(old(userTokens), caller)
      ensures old(Valid()) ==> Valid()
      ensures old(Valid()) && tokens <= BalanceOf(old(userTokens), caller) && proposalId in old(proposals) ==>
        var p := old(proposals)[proposalId];
        (r == Err(VotingEnded) <==> p.endDate < now) && (r == Err(VotingNotStarted) <==> now < p.startDate)
      ensures old(Valid()) && tokens <= BalanceOf(old(userTokens), caller) && proposalId == 0 ==> r == Err(NotFound)
      ensures old(Valid()) ==> (r == Err(InsufficientTokens) <==> tokens > 0)
      ensures old(Valid()) && r.Ok? ==> tokens == 0
    {
      ghost var wasValid := Valid();
      var balance := BalanceOf(userTokens, caller);
      userTokens := userTokens[caller := balance];
      if balance < tokens {
        return Err(InsufficientTokens);
      }
      if proposalId !in proposals {
        return Err(NotFound);
      }
      if wasValid {
        VoteKeepsInvariant(idCounter, proposals, votes, caller, now, proposalId, isFor, tokens);
      }
      var proposal := Refreshed(proposals[proposalId], now);
      ghost var counted := AddVote(proposal, isFor, tokens);
      ghost var before := proposals;
      assert wasValid ==> LedgerInvariant(idCounter, before[proposalId := counted],
                                          votes[(caller, proposalId) := Vote(caller, proposalId, tokens, isFor)]);
      proposals := proposals[proposalId := proposal];
      assert wasValid ==> LedgerInvariant(idCounter, proposals, votes);
      if proposal.status == Ended {
        return Err(VotingEnded);
      }
      if proposal.startDate > now {
        return Err(VotingNotStarted);
      }
      var vote := Vote(caller, proposalId, tokens, isFor);
      proposal := AddVote(proposal, isFor, tokens);
      proposals := proposals[proposalId := proposal];
      var key := (caller, proposalId);
      var previous := key in votes;
      votes := votes[key := vote];
      assert proposals == before[proposalId := counted];
      if previous {
        return Err(AlreadyExists);
      }
      userTokens := userTokens[caller := balance - tokens];
      r := Ok(());
    }
  }
}
