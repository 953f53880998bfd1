/**
 The program's two instructions as they run: on a `Poll` account whose
 fields are updated in place. Each instruction checks its conditions first
 and returns an error before it writes anything; otherwise it assigns the
 fields and succeeds. Each method is proved to do exactly what the
 corresponding function of `PollLogic` describes.
 */
module PollAccount {
  import opened PollLogic

  /** The instruction's return value, `Result<()>`. */
  datatype Outcome = Ok | Err(code: ErrorCode)

  class Poll {
    var question: seq<byte>
    var yesVotes: nat
    var noVotes: nat
    var pollIndex: nat
    var creator: Pubkey
    var register: seq<Pubkey>
    var pollThreshold: nat

    /** The account's content as a value. */
    function State(): PollState
      reads this
    {
      PollState(question, yesVotes, noVotes, pollIndex, creator, register, pollThreshold)
    }

    predicate Valid()
      reads this
    {
      Inv(State())
    }

    /** A newly allocated account, all of whose bytes are zero; the creator is the default key. */
    constructor ()
      ensures question == [] && yesVotes == 0 && noVotes == 0 && pollIndex == 0
      ensures register == [] && pollThreshold == 0
      ensures Valid()
    {
      question, yesVotes, noVotes, pollIndex := [], 0, 0, 0;
      register, pollThreshold := [], 0;
    }

    /** `create_poll`, signed by `signer`. */
    method CreatePoll(signer: Pubkey, question: seq<byte>, pollIndex: nat, pollThreshold: nat) returns (r: Outcome)
      modifies this
      ensures match Create(old(State()), signer, question, pollIndex, pollThreshold)
        case Success(next) => r == Ok && State() == next
        case Failure(e) => r == Err(e) && unchanged(this)
      ensures r == Ok ==> Valid()
    {
      if |question| > MaxQuestionLen {
        return Err(QuestionTooLong);
      }
      this.question := question;
      yesVotes := 0;
      noVotes := 0;
      creator := signer;
      register := [];
      this.pollThreshold := pollThreshold;
      return Ok;
    }

    /** `vote_for_poll`, signed by `voter`, with `voteChoice` true for yes. */
    method VoteForPoll(voter: Pubkey, voteChoice: bool) returns (r: Outcome)
      modifies this
      ensures match Vote(old(State()), voter, voteChoice)
        case Success(next) => r == Ok && State() == next
        case Failure(e) => r == Err(e) && unchanged(this)
      ensures old(Valid()) ==> Valid()
    {
      if voter in register {
        return Err(CannotVoteTwice);
      }
      if pollThreshold != 0 && yesVotes + noVotes >= pollThreshold {
        return Err(VoteThreshold);
      }
      register := register + [voter];
      if voteChoice {
        yesVotes := yesVotes + 1;
      } else {
        noVotes := noVotes + 1;
      }
      return Ok;
    }
  }

  /**
   A poll with room for one vote: the first voter gets in, a second voter is
   stopped by the threshold, and the first voter trying again is stopped by
   the duplicate check, which runs first.
   */
  method FullPollScenario(owner: Pubkey, alice: Pubkey, bob: Pubkey, question: seq<byte>)
    returns (first: Outcome, second: Outcome, again: Outcome)
    requires alice != bob
    requires |question| <= MaxQuestionLen
    ensures first == Ok
    ensures second == Err(VoteThreshold)
    ensures again == Err(CannotVoteTwice)
  {
    var poll := new Poll();
    var created := poll.CreatePoll(owner, question, 0, 1);
    first := poll.VoteForPoll(alice, true);
    second := poll.VoteForPoll(bob, false);
    again := poll.VoteForPoll(alice, false);
  }
}
