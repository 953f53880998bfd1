# Simple voting program: poll state machine

This project models the on-chain voting program `simple_voting_solana` and
proves properties about it. The program keeps one `Poll` account per
(creator, index) pair. That account holds a question, a yes counter, a no
counter, the creator's key, the index, a register of the keys that have
voted, and a vote threshold, where 0 means no limit. The program has two
instructions:

- `create_poll` rejects a question longer than 300 bytes with
  `QuestionTooLong`. Otherwise it zeroes both counters, records the signer
  as creator, empties the register and stores the threshold.
- `vote_for_poll` rejects a signer already in the register with
  `CannotVoteTwice`. It then rejects a vote with `VoteThreshold` when the
  threshold is non-zero and the votes cast have reached it. Otherwise it
  appends the signer to the register and adds one to the yes or the no
  counter.

An instruction that fails writes nothing.

The project has two modules:

- `PollLogic` (`poll_logic.dfy`) describes both instructions on values:
  - `PollState` is the account's fields;
  - `Create` and `Vote` map an account to either the new account or an
    error;
  - `Inv` is the account invariant: no duplicate in the register, the
    register's length equals yes plus no, and a non-zero threshold bounds
    that total;
  - `ApplyVotes` runs a sequence of `vote_for_poll` transactions (`Ballot`s)
    and stops at the first one that fails.
- `PollAccount` (`poll_account.dfy`) holds the class `Poll`, whose fields
  the methods `CreatePoll` and `VoteForPoll` update in place, checks first
  and writes after, as the program does. Each method is proved to leave
  exactly the account, and return exactly the outcome, that `Create` or
  `Vote` gives.

A key (`Pubkey`) is an opaque type with equality. A question is a sequence
of bytes, because the program measures the length of its UTF-8 encoding and
not its number of characters.

## Model

| member | source | states |
|---|---|---|
| `PollLogic.Create` | programs/simple_voting_solana/src/lib.rs:20-36 | Fails exactly when the question is longer than 300 bytes, and then with `QuestionTooLong`. On success: the question is the argument, both counters are 0, the register is empty, the creator is the signer, the threshold is the argument, the index is whatever the account already held, and the invariant holds. |
| `PollLogic.Vote` | programs/simple_voting_solana/src/lib.rs:38-70 | `CannotVoteTwice` exactly when the voter is already registered, whatever the threshold. `VoteThreshold` exactly when the voter is new, the threshold is non-zero and yes+no has reached it, so a zero threshold never rejects. Success in every other case. On success, the voter is appended at the end of the register, the chosen counter goes up by one, the other counter is unchanged, so is every other field, and the invariant is kept. |
| `PollLogic.ApplyVotes` | programs/simple_voting_solana/src/lib.rs:38-70 | After a run of successful votes, the register is the old register followed by the voters in order. Yes grows by the number of yes ballots and no by the rest. The other fields are unchanged and the invariant still holds. |
| `PollLogic.ApplyVotesSucceedsIff` | programs/simple_voting_solana/src/lib.rs:47-65 | On an account that satisfies the invariant, a run of votes succeeds exactly when no key appears twice in the register followed by the new voters, and a non-zero threshold leaves room for every ballot. |
| `PollLogic.VotesOnFreshPoll` | programs/simple_voting_solana/src/lib.rs:20-70 | On a freshly created poll, N ballots succeed exactly when their voters are distinct and a non-zero threshold is at least N. Then yes+no = N, the register has length N and lists the voters in voting order, and yes counts the yes ballots. |
| `PollLogic.SecondVoteRejected` | programs/simple_voting_solana/src/lib.rs:47-59 | Once a key's vote has succeeded, its next vote fails with `CannotVoteTwice`, whatever it chooses. |
| `PollAccount.Poll.constructor` | programs/simple_voting_solana/src/lib.rs:106-114 | A newly allocated poll account is all zeros: empty question and register, zero counters, index and threshold. It satisfies the invariant. |
| `PollAccount.Poll.CreatePoll` | programs/simple_voting_solana/src/lib.rs:20-36 | Returns `Err(QuestionTooLong)` and changes no field when `Create` fails. Otherwise it returns `Ok`, the account is exactly `Create`'s result, and the invariant holds. |
| `PollAccount.Poll.VoteForPoll` | programs/simple_voting_solana/src/lib.rs:38-70 | Returns the error `Vote` gives and changes no field when `Vote` fails. Otherwise it returns `Ok` and the account is exactly `Vote`'s result. An account that satisfied the invariant still does. |
| `PollAccount.FullPollScenario` | programs/simple_voting_solana/src/lib.rs:47-56 | On a poll with threshold 1, the first vote succeeds. A second voter gets `VoteThreshold`. The first voter trying again gets `CannotVoteTwice`, because the duplicate check runs first. |

## Left out

- Anchor account wiring is not modelled: the `Accounts` structs, `Context`, `Signer` and the program id. The signer's key is passed as an explicit parameter.
- The derivation of the poll's address from "poll", the creator and the index is not modelled. This address is what makes a (creator, index) pair map to one account. The model works on one account at a time.
- The account `space` computation is not modelled. It reserves no room for `register` or `poll_threshold`, which is an account-layout limit on how many votes fit.
- The `msg!` log lines are not modelled, because they are output only.
- `poll_index` is never written by `create_poll`. The model keeps the account's previous value and claims nothing more.
- `PollLogic.Vote`: yes, no, the index and the threshold are unbounded naturals, not `u64`. The model has no overflow in `yes_votes + no_votes` or in the increments. The overflow-check build setting is not part of the source.
- `PollAccount.Poll.VoteForPoll`: for the same reason, it has no `u64` overflow.
- A question is any byte sequence. The model does not require it to be valid UTF-8, as a Rust `String` is.
- Poll expiry timestamps are not modelled: this version of the program has none.
- The client test file is not modelled. It calls an `initialize` instruction over RPC that the program does not have, and it asserts nothing about polls.
