/**
 The decision logic of the simple voting program, on values.

 A `PollState` is the content of one poll account. `Create` and `Vote` are the
 two instructions of the program as functions from the account before the
 instruction to either the account after it or the error the instruction
 aborts with (an aborted instruction writes nothing). `Inv` is the invariant
 every poll account keeps, and `ApplyVotes` runs a sequence of vote
 transactions one after the other, so that properties of whole voting
 histories can be stated and proved.
 */
module PollLogic {

  /** The program's error codes, in declaration order. */
  datatype ErrorCode = QuestionTooLong | CannotVoteTwice | VoteThreshold

  newtype byte = x: int | 0 <= x < 256

  /** An account address; only equality matters. Its default value is the all-zero key. */
  type Pubkey(==, 0)

  /** The longest question, in bytes of its UTF-8 encoding, that `create_poll` accepts. */
  const MaxQuestionLen: nat := 300

  /** The fields of a `Poll` account. Counters, index and threshold are unbounded here. */
  datatype PollState = PollState(
    question: seq<byte>,
    yesVotes: nat,
    noVotes: nat,
    pollIndex: nat,
    creator: Pubkey,
    register: seq<Pubkey>,
    pollThreshold: nat)

  /** What an instruction leads to: the new account, or the error it aborts with. */
  datatype Result = Success(poll: PollState) | Failure(code: ErrorCode)

  /** One `vote_for_poll` transaction: the signing voter and the choice it passes. */
  datatype Ballot = Ballot(voter: Pubkey, choice: bool)

  function Total(p: PollState): nat {
    p.yesVotes + p.noVotes
  }

  predicate NoDuplicates(s: seq<Pubkey>) {
    forall i, j | 0 <= i < j < |s| :: s[i] != s[j]
  }

  /**
   The invariant of a poll account: nobody is registered twice, every
   registered voter cast exactly one counted vote, and a non-zero threshold
   bounds the number of votes.
   */
  predicate Inv(p: PollState) {
    && NoDuplicates(p.register)
    && |p.register| == Total(p)
    && (p.pollThreshold != 0 ==> Total(p) <= p.pollThreshold)
  }

  /** The fields that voting never changes are the same in `p` and `q`. */
  predicate SameHeader(p: PollState, q: PollState) {
    && q.question == p.question
    && q.creator == p.creator
    && q.pollIndex == p.pollIndex
    && q.pollThreshold == p.pollThreshold
  }

  /**
   `create_poll` signed by `signer` on the account `p`. The index only takes
   part in the account's address; the instruction never stores it, so the
   account keeps whatever index it held.
   */
  function Create(p: PollState, signer: Pubkey, question: seq<byte>, pollIndex: nat, pollThreshold: nat): (r: Result)
    ensures r.Failure? <==> |question| > MaxQuestionLen
    ensures r.Failure? ==> r.code == QuestionTooLong
    ensures r.Success? ==>
      && r.poll.question == question
      && r.poll.yesVotes == 0 && r.poll.noVotes == 0
      && r.poll.register == []
      && r.poll.creator == signer
      && r.poll.pollThreshold == pollThreshold
      && r.poll.pollIndex == p.pollIndex
    ensures r.Success? ==> Inv(r.poll)
  {
    if |question| > MaxQuestionLen then
      Failure(QuestionTooLong)
    else
      Success(p.(question := question, yesVotes := 0, noVotes := 0, creator := signer,
                 register := [], pollThreshold := pollThreshold))
  }

  /**
   `vote_for_poll` signed by `voter` with `choice` (true for yes). The
   duplicate check comes before the threshold check, so a repeat voter is
   told `CannotVoteTwice` even on a full poll; a zero threshold never
   rejects a vote.
   */
  function Vote(p: PollState, voter: Pubkey, choice: bool): (r: Result)
    ensures r == Failure(CannotVoteTwice) <==> voter in p.register
    ensures r == Failure(VoteThreshold) <==>
      voter !in p.register && p.pollThreshold != 0 && Total(p) >= p.pollThreshold
    ensures r.Success? <==>
      voter !in p.register && (p.pollThreshold == 0 || Total(p) < p.pollThreshold)
    ensures r.Success? ==>
      && SameHeader(p, r.poll)
      && r.poll.register == p.register + [voter]
      && r.poll.yesVotes == (if choice then p.yesVotes + 1 else p.yesVotes)
      && r.poll.noVotes == (if choice then p.noVotes else p.noVotes + 1)
    ensures r.Success? ==> Total(r.poll) == Total(p) + 1
    ensures Inv(p) && r.Success? ==> Inv(r.poll)
  {
    if voter in p.register then
      Failure(CannotVoteTwice)
    else if p.pollThreshold != 0 && Total(p) >= p.pollThreshold then
      Failure(VoteThreshold)
    else if choice then
      Success(p.(register := p.register + [voter], yesVotes := p.yesVotes + 1))
    else
      Success(p.(register := p.register + [voter], noVotes := p.noVotes + 1))
  }

  /** The signers of a sequence of ballots, in order. */
  function Voters(bs: seq<Ballot>): (vs: seq<Pubkey>)
    ensures |vs| == |bs|
    ensures forall i | 0 <= i < |bs| :: vs[i] == bs[i].voter
  {
    if bs == [] then [] else [bs[0].voter] + Voters(bs[1..])
  }

  /** How many of the ballots choose yes. */
  function CountYes(bs: seq<Ballot>): (n: nat)
    ensures n <= |bs|
  {
    if bs == [] then 0 else (if bs[0].choice then 1 else 0) + CountYes(bs[1..])
  }

  /**
   The ballots cast one after the other on `p`, stopping at the first one
   that fails. On success the register grows by exactly the voters, in
   order, each counter grows by the ballots that chose it, and the
   invariant is kept.
   */
  function ApplyVotes(p: PollState, bs: seq<Ballot>): (r: Result)
    decreases |bs|
    ensures r.Success? ==> SameHeader(p, r.poll) && r.poll.register == p.register + Voters(bs)
    ensures r.Success? ==>
      && r.poll.yesVotes == p.yesVotes + CountYes(bs)
      && r.poll.noVotes == p.noVotes + (|bs| - CountYes(bs))
    ensures Inv(p) && r.Success? ==> Inv(r.poll)
  {
    if bs == [] then
      Success(p)
    else
      match Vote(p, bs[0].voter, bs[0].choice)
      case Failure(e) => Failure(e)
      case Success(q) =>
        assert p.register + Voters(bs) == q.register + Voters(bs[1..]);
        ApplyVotes(q, bs[1..])
  }

  /**
   A voting history on a poll that satisfies the invariant goes through
   exactly when no voter appears twice among the registered voters and the
   new ones, and a non-zero threshold leaves room for every ballot.
   */
  lemma {:induction false} ApplyVotesSucceedsIff(p: PollState, bs: seq<Ballot>)
    requires Inv(p)
    decreases |bs|
    ensures ApplyVotes(p, bs).Success? <==>
      NoDuplicates(p.register + Voters(bs)) && (p.pollThreshold == 0 || Total(p) + |bs| <= p.pollThreshold)
  {
    if bs == [] {
      assert p.register + Voters(bs) == p.register;
    } else {
      var v := bs[0].voter;
      var all := p.register + Voters(bs);
      assert all[|p.register|] == v;
      if v in p.register {
        var i :| 0 <= i < |p.register| && p.register[i] == v;
        assert all[i] == all[|p.register|];
      } else if p.pollThreshold != 0 && Total(p) >= p.pollThreshold {
      } else {
        var q := Vote(p, v, bs[0].choice).poll;
        assert all == q.register + Voters(bs[1..]);
        ApplyVotesSucceedsIff(q, bs[1..]);
      }
    }
  }

  /**
   On a freshly created poll, a voting history succeeds exactly when its
   voters are distinct and a non-zero threshold is at least their number;
   then N ballots leave N votes, split as the ballots chose, and a register
   that lists the voters in the order they voted.
   */
  lemma VotesOnFreshPoll(p: PollState, signer: Pubkey, question: seq<byte>, pollIndex: nat, pollThreshold: nat, created: PollState, bs: seq<Ballot>)
    requires Create(p, signer, question, pollIndex, pollThreshold) == Success(created)
    ensures ApplyVotes(created, bs).Success? <==>
      NoDuplicates(Voters(bs)) && (pollThreshold == 0 || |bs| <= pollThreshold)
    ensures ApplyVotes(created, bs).Success? ==>
      && Total(ApplyVotes(created, bs).poll) == |bs|
      && ApplyVotes(created, bs).poll.register == Voters(bs)
      && ApplyVotes(created, bs).poll.yesVotes == CountYes(bs)
  {
    assert created.register + Voters(bs) == Voters(bs);
    ApplyVotesSucceedsIff(created, bs);
  }

  /** Once a vote has gone through, the same voter is turned away, whatever it chooses the second time. */
  lemma SecondVoteRejected(p: PollState, voter: Pubkey, first: bool, second: bool)
    requires Vote(p, voter, first).Success?
    ensures Vote(Vote(p, voter, first).poll, voter, second) == Failure(CannotVoteTwice)
  {
  }
}
