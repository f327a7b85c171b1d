/** The result of a poll: YES and NO votes are counted over the whole vote
    list (whatever the poll's status, and with no check that a member voted
    only once) and compared. */
module Results {
  import opened Entities

  /** The three results a poll can have. */
  datatype PollResult = Approved | Disapproved | Tie

  /** Number of votes in `votes` whose choice is `c`. */
  function Count(votes: seq<Vote>, c: Choice): (n: nat)
    ensures n <= |votes|
  {
    if votes == [] then 0
    else (if votes[0].choice == c then 1 else 0) + Count(votes[1..], c)
  }

  /** The choices of the votes, in order. */
  function Choices(votes: seq<Vote>): (cs: seq<Choice>)
    ensures |cs| == |votes|
    ensures forall i :: 0 <= i < |votes| ==> cs[i] == votes[i].choice
  {
    if votes == [] then [] else [votes[0].choice] + Choices(votes[1..])
  }

  /** The decision of getResult on a loaded poll's votes. */
  function ResultOf(votes: seq<Vote>): PollResult
  {
    var upvotes := Count(votes, Yes);
    var downvotes := Count(votes, No);
    if upvotes > downvotes then Approved
    else if upvotes < downvotes then Disapproved
    else Tie
  }

  /** Every vote is either YES or NO, so the two counts add up to the
      number of votes. */
  lemma {:induction false} CountsCoverAllVotes(votes: seq<Vote>)
    ensures Count(votes, Yes) + Count(votes, No) == |votes|
  {
    if votes != [] {
      CountsCoverAllVotes(votes[1..]);
    }
  }

  /** The count agrees with an independent definition: the multiplicity of
      the choice among all the choices cast. */
  lemma {:induction false} CountIsMultiplicity(votes: seq<Vote>, c: Choice)
    ensures Count(votes, c) == multiset(Choices(votes))[c]
  {
    if votes != [] {
      CountIsMultiplicity(votes[1..], c);
      assert Choices(votes) == [votes[0].choice] + Choices(votes[1..]);
    }
  }

  /** Counting a concatenation counts each part. */
  lemma {:induction false} CountAppend(a: seq<Vote>, b: seq<Vote>, c: Choice)
    ensures Count(a + b, c) == Count(a, c) + Count(b, c)
  {
    if a != [] {
      assert (a + b)[1..] == a[1..] + b;
      CountAppend(a[1..], b, c);
    } else {
      assert a + b == b;
    }
  }

  /** The result stated against the multiset of choices cast: APPROVED
      exactly when YES outnumbers NO, DISAPPROVED exactly when NO outnumbers
      YES, TIE exactly when they are equal. */
  lemma ResultByMultiplicity(votes: seq<Vote>)
    ensures ResultOf(votes) == Approved <==>
              multiset(Choices(votes))[Yes] > multiset(Choices(votes))[No]
    ensures ResultOf(votes) == Disapproved <==>
              multiset(Choices(votes))[Yes] < multiset(Choices(votes))[No]
    ensures ResultOf(votes) == Tie <==>
              multiset(Choices(votes))[Yes] == multiset(Choices(votes))[No]
  {
    CountIsMultiplicity(votes, Yes);
    CountIsMultiplicity(votes, No);
  }

  /** The result does not depend on the order of the votes: two vote lists
      with the same choices in any order have the same result. */
  lemma ResultIgnoresOrder(a: seq<Vote>, b: seq<Vote>)
    requires multiset(Choices(a)) == multiset(Choices(b))
    ensures ResultOf(a) == ResultOf(b)
  {
    ResultByMultiplicity(a);
    ResultByMultiplicity(b);
  }

  /** A poll without votes is a tie. */
  lemma NoVotesIsTie()
    ensures ResultOf([]) == Tie
  {
  }

  /** APPROVED means a strict majority of all the votes cast are YES, and
      DISAPPROVED a strict majority are NO. */
  lemma ResultIsStrictMajority(votes: seq<Vote>)
    ensures ResultOf(votes) == Approved <==> 2 * Count(votes, Yes) > |votes|
    ensures ResultOf(votes) == Disapproved <==> 2 * Count(votes, No) > |votes|
    ensures ResultOf(votes) == Tie <==> 2 * Count(votes, Yes) == |votes|
  {
    CountsCoverAllVotes(votes);
  }

  /** One more YES vote never hurts: an approved poll stays approved and a
      tie becomes approved; a disapproved poll at best becomes a tie. */
  lemma OneMoreYes(votes: seq<Vote>, v: Vote)
    requires v.choice == Yes
    ensures ResultOf(votes) == Approved ==> ResultOf(votes + [v]) == Approved
    ensures ResultOf(votes) == Tie ==> ResultOf(votes + [v]) == Approved
    ensures ResultOf(votes) == Disapproved ==> ResultOf(votes + [v]) != Approved
  {
    CountAppend(votes, [v], Yes);
    CountAppend(votes, [v], No);
  }

  /** One more NO vote is the mirror image. */
  lemma OneMoreNo(votes: seq<Vote>, v: Vote)
    requires v.choice == No
    ensures ResultOf(votes) == Disapproved ==> ResultOf(votes + [v]) == Disapproved
    ensures ResultOf(votes) == Tie ==> ResultOf(votes + [v]) == Disapproved
    ensures ResultOf(votes) == Approved ==> ResultOf(votes + [v]) != Disapproved
  {
    CountAppend(votes, [v], Yes);
    CountAppend(votes, [v], No);
  }
}
