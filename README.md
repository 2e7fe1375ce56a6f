# Proposal and vote ledger, modelled in Dafny

This project models the core of a governance canister in which users create time-boxed
proposals and cast token-weighted votes on them. It covers two parts of
`src/icp_rust_boilerplate_backend/src/lib.rs`:

- **Calendar arithmetic** (`calendar.dfy`, `date_parse.dfy`): the Gregorian leap-year rule,
  month lengths, the day-accumulating loops that turn a date into epoch seconds
  (`date_to_timestamp`), the loops that turn epoch seconds back into a date
  (`get_current_date`), and `parse_date`, which reads `DD-MM-YYYY`.
- **The ledger** (`governance.dfy`): the `Proposal` and `Vote` records, the time-derived
  `ProposalStatus`, and a `Ledger` class whose fields are the four stores the canister keeps:
  the id counter, proposals by id, votes by (voter, proposal id), and token balances by voter.
  `get_proposal`, `create_proposal` and `vote_on_proposal` are modelled on it.
  `types.dfy` holds the error kinds and the `Result` wrapper.

The host's clock and the caller's identity become parameters: every operation takes `now`
(epoch seconds, the canister's nanoseconds already divided by 10^9) and, where needed, the
caller. Stores are Dafny maps held as fields of `Ledger`. Amounts, ids and timestamps are
unbounded naturals.

Main results:

- `date_to_timestamp` and `get_current_date` are methods with the source's loops. They are
  proved against specification functions (`Timestamp`, `DayNumber`). For valid dates from 1970
  on, timestamps are whole days and strictly increase in calendar order. Decomposing a
  timestamp gives back the date it came from (`DecomposeTimestamp`).
- `Split` is proved to invert `Join` on fields free of '-'. A decimal numeral, with any number
  of leading zeros, parses back to its number. The converse does not hold, because a numeral
  can be written with or without leading zeros. Every date that `parse_date` accepts is
  therefore read back exactly from its zero-padded `DD-MM-YYYY` form (`ParseFormatRoundTrip`).
- `create_proposal` compares today's date with the start date field by field. That
  comparison is proved equal to `start timestamp > now` (`StartAfterTodayIff`). So the check
  labelled "Start date must be in the future" actually rejects every start day later than
  today. A proposal that is created has therefore already started. Reading it back at creation
  time never shows `Pending`.
- `vote_on_proposal` is specified step by step in the order the source runs its steps. The
  ledger invariant (`Ledger.Valid`, built on `LedgerInvariant`) is preserved by both updating operations. Proposals sit
  under their own issued id, and their windows are non-empty. Every stored vote refers to a
  stored proposal, and its power is at most that proposal's tally on its side. Every balance
  stays 0, because no operation credits one; so the only vote that can succeed is a vote of
  0 tokens.

Behaviour kept as the source writes it. Where the code as written cannot be taken literally,
its evident intent is modelled:

- The inner closures of `create_proposal` and `vote_on_proposal` return `AlreadyExists` on a
  duplicate key. This is taken as the operation's result. The insert has already taken place by
  then. On a duplicate proposal id the new record therefore replaces the old one, and the
  counter stays advanced. This cannot happen while the ledger invariant holds.
- `id_counter.increment()` is read as advancing the counter and returning the new value. The
  cell starts at 1, so the first proposal gets id 2, and id 0 is never issued.
- In `vote_on_proposal` the proposal is fetched with `get_mut`. Its refreshed status is therefore
  written back to the store even when the vote is then rejected as ended or not started.
- The tally is raised before the vote is inserted. The insert replaces an earlier vote under
  the same key. A second vote by the same caller on the same proposal therefore adds its
  tokens to the tally and replaces the stored vote. It then reports `AlreadyExists` without
  debiting the balance.
- A caller without a balance entry gets one materialised as 0 by every vote call, including
  calls that fail. Voting with 0 tokens passes the balance check.
- `vote_on_proposal` does not reject id 0. Under the ledger invariant id 0 is never stored, so
  it fails with `NotFound`.

In three places the code does something other than what the system is meant to do, and the
model keeps what the code does. A new user's balance is 0, not a starting allotment of 3
tokens. The start-date check is inverted. A duplicate vote still raises the tally.

## Model

| member | source | states |
|---|---|---|
| `Calendar.IsLeapYear` | src/icp_rust_boilerplate_backend/src/lib.rs:183-185 | Gregorian rule: years not divisible by 4 are common, other non-century years are leap, centuries are common unless divisible by 400 |
| `Calendar.YearDays` | src/icp_rust_boilerplate_backend/src/lib.rs:167-168 | a year has 366 days exactly when it is a Gregorian leap year (divisible by 4, and not by 100 unless by 400), else 365 |
| `Calendar.LeapYearTable` | src/icp_rust_boilerplate_backend/src/lib.rs:183-185 | 2000 and 2024 are leap years; 1900, 2023 and 2100 are not |
| `Calendar.DaysInMonth` | src/icp_rust_boilerplate_backend/src/lib.rs:187-193 | months 4, 6, 9, 11 have 30 days, February 29 in a leap year and 28 otherwise, every other month number 31; always within 28..31 |
| `Calendar.MonthsFillYear` | src/icp_rust_boilerplate_backend/src/lib.rs:187-193 | the twelve month lengths add up to the year's length |
| `Calendar.DaysBeforeMonthMonotone` | src/icp_rust_boilerplate_backend/src/lib.rs:200-202 | the days counted before a month never decrease as the month grows |
| `Calendar.DaysBeforeYearStep` | src/icp_rust_boilerplate_backend/src/lib.rs:197-199 | from 1970 on, the days before a later year cover the whole of every earlier year |
| `Calendar.DayOfYearBound` | src/icp_rust_boilerplate_backend/src/lib.rs:195-205 | the day offset of a valid date within its year is less than the year's length |
| `Calendar.DateToTimestamp` | src/icp_rust_boilerplate_backend/src/lib.rs:195-205 | the loops compute whole days from 1970-01-01 to the date times 86400, years before 1970 and months before 1 adding nothing |
| `Calendar.DayNumberStrictlyIncreasing` | src/icp_rust_boilerplate_backend/src/lib.rs:195-205 | valid dates from 1970 on get strictly increasing day counts in (year, month, day) order |
| `Calendar.TimestampStrictlyIncreasing` | src/icp_rust_boilerplate_backend/src/lib.rs:195-205 | timestamps of valid dates are multiples of 86400 and strictly increase in calendar order |
| `Calendar.DateBeforeIff` | src/icp_rust_boilerplate_backend/src/lib.rs:256 | the field-by-field (year, month, day) comparison agrees with comparing day counts, in both directions |
| `Calendar.CurrentDate` | src/icp_rust_boilerplate_backend/src/lib.rs:161-181 | peeling whole years then whole months off `now / 86400` yields a valid date from 1970 on (month 1..12, day 1..month length) whose day count is exactly `now / 86400` |
| `Calendar.DecomposeTimestamp` | src/icp_rust_boilerplate_backend/src/lib.rs:161-181 | the only date CurrentDate can return for the timestamp of a valid date is that date itself (round trip) |
| `DateParse.Split` | src/icp_rust_boilerplate_backend/src/lib.rs:208 | splitting on '-' yields at least one field, no field contains '-', and joining the fields with '-' gives back the text |
| `DateParse.SplitJoin` | src/icp_rust_boilerplate_backend/src/lib.rs:208-209 | fields free of '-' are recovered exactly by splitting their join, so the split is determined by the text |
| `DateParse.ParseU32` | src/icp_rust_boilerplate_backend/src/lib.rs:213-215 | a field is a u32 exactly when it is a non-empty string of decimal digits whose value is below 2^32, and then that value |
| `DateParse.LeadingZeros` | src/icp_rust_boilerplate_backend/src/lib.rs:213-215 | leading zeros do not change the value of a numeral, so "01" and "1" read the same |
| `DateParse.ParseU32Padded` | src/icp_rust_boilerplate_backend/src/lib.rs:213-215 | every number below 2^32, zero-padded to any width, parses back to itself, and its numeral contains no '-' |
| `DateParse.DigitsRoundTrip` | src/icp_rust_boilerplate_backend/src/lib.rs:213-215 | the value of a number's decimal numeral is the number |
| `DateParse.ParseU32Digits` | src/icp_rust_boilerplate_backend/src/lib.rs:213-215 | every number below 2^32 written in decimal parses back to itself, and its numeral contains no '-' |
| `DateParse.ParseDate` | src/icp_rust_boilerplate_backend/src/lib.rs:207-224 | success exactly when the text splits into three u32 fields (day, month, year) with month 1..12, day within the month and year at least 2023; then the result is (timestamp of the date, year, month, day), the timestamp a multiple of 86400; every failure is InvalidInput |
| `DateParse.ParseFormatRoundTrip` | src/icp_rust_boilerplate_backend/src/lib.rs:207-224 | every date parse_date accepts, written zero-padded as DD-MM-YYYY (e.g. 01-01-2030), parses back to that date and its timestamp |
| `Governance.StatusAt` | src/icp_rust_boilerplate_backend/src/lib.rs:63-72 | exactly one status: Pending iff now < start, Active iff start <= now <= end, Ended iff now is past both start and end |
| `Governance.StatusMonotone` | src/icp_rust_boilerplate_backend/src/lib.rs:63-72 | as time advances the status moves only forward, from Pending to Active to Ended |
| `Governance.Refreshed` | src/icp_rust_boilerplate_backend/src/lib.rs:236-238 | update_status applied to a stored record changes only its status, which becomes Pending, Active or Ended exactly as StatusAt characterises them |
| `Governance.BalanceOf` | src/icp_rust_boilerplate_backend/src/lib.rs:292 | a caller's balance is the stored entry, or 0 for a caller without one |
| `Governance.AddVote` | src/icp_rust_boilerplate_backend/src/lib.rs:319-324 | counting a vote raises exactly one tally, the chosen side's, by the tokens, and changes no other field |
| `Governance.ValidateWindow` | src/icp_rust_boilerplate_backend/src/lib.rs:250-258 | the date checks of create_proposal pass exactly when both dates parse, the end timestamp is after the start, and the start is not after now; failures are InvalidInput |
| `Governance.StartAfterTodayIff` | src/icp_rust_boilerplate_backend/src/lib.rs:256-258 | the comparison of today's (year, month, day) with the start date rejects exactly the start timestamps later than now |
| `Governance.WindowOfWrittenDates` | src/icp_rust_boilerplate_backend/src/lib.rs:250-258 | for two dates written out in full, the window is accepted exactly when the start precedes the end in calendar order and the start is not after now |
| `Governance.VoteKeepsInvariant` | src/icp_rust_boilerplate_backend/src/lib.rs:297-331 | writing back a proposal with its status refreshed, and then with a vote counted and stored under its key, keeps the ledger invariant |
| `Governance.Ledger.constructor` | src/icp_rust_boilerplate_backend/src/lib.rs:118-131 | the counter cell starts at 1 and all three maps start empty, which satisfies the ledger invariant |
| `Governance.Ledger.GetProposal` | src/icp_rust_boilerplate_backend/src/lib.rs:227-242 | id 0 gives InvalidInput, an absent id NotFound, otherwise the stored record with only its status recomputed for now; the store is not changed |
| `Governance.Ledger.CreateProposal` | src/icp_rust_boilerplate_backend/src/lib.rs:245-283 | a failed date check gives InvalidInput and changes nothing; otherwise the counter advances and a proposal with zero tallies, Pending status, created_at now, the caller as creator and the parsed timestamps is stored under the new id, with AlreadyExists reported if that id already held a record (impossible under the invariant); a created proposal has already started, so reading it back at once never shows Pending; votes and balances are untouched and the invariant is kept |
| `Governance.Ledger.VoteOnProposal` | src/icp_rust_boilerplate_backend/src/lib.rs:286-336 | the balance entry is materialised as 0; InsufficientTokens when it is below the tokens, NotFound when the proposal is absent (including id 0), VotingEnded when now is past the end, VotingNotStarted when now is before the start; otherwise one tally rises by the tokens and the vote is stored under (caller, id), and then AlreadyExists if the key already held a vote, else success with the balance debited by exactly the tokens; the id counter never changes and the invariant is kept, so balances stay 0 and only a 0-token vote can succeed |

## Left out

- Byte encodings of the stored records (`Storable`, `BoundedStorable`, Candid encoding) and their size ceilings: library serialisation, not ledger logic.
- The memory manager, stable maps, the counter cell and the thread-local setup: replaced by the `Ledger` fields.
- The host clock and caller identity, including the division of nanoseconds by 10^9: they are the `now` and `caller` parameters. Principal internals and hashing are left out; a principal is its bytes, compared for equality.
- Error messages: only the error kind is modelled.
- `DateParse.ParseU32`: does not model the leading '+' that Rust's `parse::<u32>` also accepts, because a field is modelled as a non-empty run of decimal digits.
- `Calendar.DateToTimestamp`: does not model the 32-bit overflow of the day accumulator, which is reached only for years beyond about eleven million. The count is unbounded here.
- `Governance.Ledger.VoteOnProposal`: does not model the 64-bit overflow of a tally or a balance. They are unbounded naturals. Under the ledger invariant every accepted vote carries 0 tokens, so the overflow cannot arise there.
- `Governance.Ledger.CreateProposal`: does not model the 64-bit overflow of the id counter. It is an unbounded natural.
- The wider system also lists, updates and deletes proposals, reads results, and grants and reads balances. `lib.rs` has none of these operations, so they are not part of this model.
