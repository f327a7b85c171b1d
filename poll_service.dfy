/** The poll lifecycle engine: opening a poll on a topic through a
    fail-fast validation pipeline, and reporting a stored poll's status and
    result. The topic store is the set of topic ids; the poll store is the
    sequence of saved polls. The clock is not read here: every instant the
    service would read is passed in. */
module Service {
  import opened Wrappers
  import opened Entities
  import opened Results
  import opened Status
  import opened Repository

  /** The instants createPoll reads, in the order it reads them: when it
      asks for the topic's open polls, when it computes the default deadline
      (only read when the request has no deadline), and when it checks that
      the deadline is not in the past. */
  datatype Clock = Clock(openCheck: int, deadline: int, pastCheck: int)

  /** A call served entirely at one instant. */
  function SingleInstant(now: int): Clock
  {
    Clock(now, now, now)
  }

  /** True when `topic` has a poll whose deadline is after `asOf`. */
  ghost predicate HasOpenPoll(polls: seq<Poll>, topic: int, asOf: int)
  {
    exists i :: 0 <= i < |polls| && polls[i].topic == topic && polls[i].endAt > asOf
  }

  /** Step 1: a topic id is required. */
  function RequiredTopicId(req: PollRequest): (r: Result<int, Error>)
    ensures r.Failure? <==> req.topicId.None?
    ensures r.Failure? ==> r.error == MissingParameter(RequiredTopicField)
    ensures r.Success? ==> req.topicId == Some(r.value)
  {
    if req.topicId.None? then Failure(MissingParameter(RequiredTopicField))
    else Success(req.topicId.value)
  }

  /** Step 2: the topic must be in the topic store. */
  function CheckTopicExists(topics: set<int>, topicId: int): (r: Result<int, Error>)
    ensures r.Success? <==> topicId in topics
    ensures r.Failure? ==> r.error == ResourceNotFound(TopicNotFound)
    ensures r.Success? ==> r.value == topicId
  {
    if topicId !in topics then Failure(ResourceNotFound(TopicNotFound))
    else Success(topicId)
  }

  /** Step 3: the topic must have no poll still open at `asOf`, according to
      the store's open-poll query. */
  function ValidateTopicRelationship(polls: seq<Poll>, topic: int, asOf: int): (r: Option<Error>)
    ensures r.None? <==> !HasOpenPoll(polls, topic, asOf)
    ensures r.Some? ==> r.value == InvalidParameter(PollWithTopicAlreadyRunning)
  {
    var open := OpenPollsOf(polls, topic, asOf);
    assert |open| > 0 ==> open[0] in open;
    if |open| > 0 then Some(InvalidParameter(PollWithTopicAlreadyRunning)) else None
  }

  /** Step 4: the deadline asked for, or one minute after `now` when none
      was given. */
  function EffectiveEndAt(req: PollRequest, now: int): (endAt: int)
    ensures req.endAt.Some? ==> endAt == req.endAt.value
    ensures req.endAt.None? ==> endAt - now == OneMinute
  {
    if req.endAt.None? then now + OneMinute else req.endAt.value
  }

  /** Step 5: the deadline must not be before `now`. It passes exactly when
      a poll with that deadline would be reported open at `now`. */
  function CheckEndNotInPast(endAt: int, now: int): (r: Option<Error>)
    ensures r.None? <==> StatusAt(endAt, now) == PollOpened
    ensures r.Some? ==> r.value == InvalidParameter(PollInPast)
  {
    if endAt < now then Some(InvalidParameter(PollInPast)) else None
  }

  /** What createPoll decides, before it saves anything: the first failing
      step's error, or the deadline of the poll to save. */
  function CreateDecision(topics: set<int>, polls: seq<Poll>, req: PollRequest, clock: Clock)
    : (r: Result<int, Error>)
    ensures r.Success? ==> req.topicId.Some? && req.topicId.value in topics
    ensures r.Success? ==> !HasOpenPoll(polls, req.topicId.value, clock.openCheck)
    ensures r.Success? ==> r.value >= clock.pastCheck
  {
    var required := RequiredTopicId(req);
    if required.Failure? then Failure(required.error)
    else
      var found := CheckTopicExists(topics, required.value);
      if found.Failure? then Failure(found.error)
      else
        var running := ValidateTopicRelationship(polls, found.value, clock.openCheck);
        if running.Some? then Failure(running.value)
        else
          var endAt := EffectiveEndAt(req, clock.deadline);
          var past := CheckEndNotInPast(endAt, clock.pastCheck);
          if past.Some? then Failure(past.value)
          else Success(endAt)
  }

  /** The service together with the two stores it uses. `nextId` is the
      identity the poll store gives the next poll it saves. */
  class PollService {
    var topics: set<int>
    var polls: seq<Poll>
    var nextId: int

    /** Stored polls have distinct identities, all below `nextId`. */
    ghost predicate Valid()
      reads this
    {
      (forall i :: 0 <= i < |polls| ==> polls[i].id < nextId) &&
      (forall i, j :: 0 <= i < j < |polls| ==> polls[i].id != polls[j].id)
    }

    /** A service over stores that already hold `topics` and `polls`. */
    constructor (topics: set<int>, polls: seq<Poll>, nextId: int)
      requires forall i :: 0 <= i < |polls| ==> polls[i].id < nextId
      requires forall i, j :: 0 <= i < j < |polls| ==> polls[i].id != polls[j].id
      ensures Valid()
      ensures this.topics == topics && this.polls == polls && this.nextId == nextId
    {
      this.topics := topics;
      this.polls := polls;
      this.nextId := nextId;
    }

    /** createPoll: runs the checks in order and stops at the first that
        fails; only when all pass does it save exactly one poll, with no
        votes, on the resolved topic with the effective deadline. */
    method CreatePoll(req: PollRequest, clock: Clock) returns (err: Option<Error>)
      requires Valid()
      modifies this
      ensures Valid() && topics == old(topics)
      ensures err.None? <==> CreateDecision(old(topics), old(polls), req, clock).Success?
      ensures err.Some? ==>
                err.value == CreateDecision(old(topics), old(polls), req, clock).error &&
                polls == old(polls) && nextId == old(nextId)
      ensures err.None? ==>
                polls == old(polls) + [Poll(old(nextId), req.topicId.value,
                                            CreateDecision(old(topics), old(polls), req, clock).value, [])] &&
                nextId == old(nextId) + 1
    {
      var required := RequiredTopicId(req);
      if required.Failure? {
        return Some(required.error);
      }
      var found := CheckTopicExists(topics, required.value);
      if found.Failure? {
        return Some(found.error);
      }
      var topic := found.value;
      var running := ValidateTopicRelationship(polls, topic, clock.openCheck);
      if running.Some? {
        return running;
      }
      var poll := Poll(nextId, topic, EffectiveEndAt(req, clock.deadline), []);
      var past := CheckEndNotInPast(poll.endAt, clock.pastCheck);
      if past.Some? {
        return past;
      }
      polls := polls + [poll];
      nextId := nextId + 1;
      return None;
    }

    /** getResult: fails with ResourceNotFound when no poll has the id;
        otherwise the result of that poll's votes. Nothing changes. */
    method GetResult(pollId: int) returns (r: Result<PollResult, Error>)
      requires Valid()
      ensures r.Failure? <==> forall i :: 0 <= i < |polls| ==> polls[i].id != pollId
      ensures r.Failure? ==> r.error == ResourceNotFound(PollNotFound)
      ensures forall i :: 0 <= i < |polls| && polls[i].id == pollId ==>
                r == Success(ResultOf(polls[i].votes))
    {
      var poll := Find(polls, pollId);
      if poll.None? {
        return Failure(ResourceNotFound(PollNotFound));
      }
      return Success(ResultOf(poll.value.votes));
    }

    /** getStatus: fails with ResourceNotFound when no poll has the id;
        otherwise CLOSED exactly when `now` is strictly after that poll's
        deadline. Nothing changes. */
    method GetStatus(pollId: int, now: int) returns (r: Result<PollStatus, Error>)
      requires Valid()
      ensures r.Failure? <==> forall i :: 0 <= i < |polls| ==> polls[i].id != pollId
      ensures r.Failure? ==> r.error == ResourceNotFound(PollNotFound)
      ensures forall i :: 0 <= i < |polls| && polls[i].id == pollId ==>
                (r == Success(PollClosed) <==> now > polls[i].endAt) &&
                (r == Success(PollOpened) <==> now <= polls[i].endAt)
    {
      var poll := Find(polls, pollId);
      if poll.None? {
        return Failure(ResourceNotFound(PollNotFound));
      }
      return Success(StatusAt(poll.value.endAt, now));
    }
  }

  /** The first failing check wins, in this order: no topic id, unknown
      topic, a poll of the topic still open, a deadline in the past. */
  lemma CreateCheckOrder(topics: set<int>, polls: seq<Poll>, req: PollRequest, clock: Clock)
    ensures req.topicId.None? ==>
              CreateDecision(topics, polls, req, clock) == Failure(MissingParameter(RequiredTopicField))
    ensures req.topicId.Some? && req.topicId.value !in topics ==>
              CreateDecision(topics, polls, req, clock) == Failure(ResourceNotFound(TopicNotFound))
    ensures req.topicId.Some? && req.topicId.value in topics &&
            HasOpenPoll(polls, req.topicId.value, clock.openCheck) ==>
              CreateDecision(topics, polls, req, clock)
                == Failure(InvalidParameter(PollWithTopicAlreadyRunning))
    ensures req.topicId.Some? && req.topicId.value in topics &&
            !HasOpenPoll(polls, req.topicId.value, clock.openCheck) ==>
              CreateDecision(topics, polls, req, clock)
                == if EffectiveEndAt(req, clock.deadline) < clock.pastCheck
                   then Failure(InvalidParameter(PollInPast))
                   else Success(EffectiveEndAt(req, clock.deadline))
  {
  }

  /** With no deadline given, the deadline is one minute after the instant
      it is computed at, and it passes the past check exactly when the clock
      has not moved on by more than that minute before the check. */
  lemma DefaultDeadline(topics: set<int>, polls: seq<Poll>, topic: int, clock: Clock)
    requires topic in topics && !HasOpenPoll(polls, topic, clock.openCheck)
    ensures CreateDecision(topics, polls, PollRequest(Some(topic), None), clock)
              == if clock.pastCheck <= clock.deadline + OneMinute
                 then Success(clock.deadline + OneMinute)
                 else Failure(InvalidParameter(PollInPast))
  {
    CreateCheckOrder(topics, polls, PollRequest(Some(topic), None), clock);
  }

  /** Served at one instant, a request without a deadline on an existing
      topic with no open poll always succeeds, with the deadline one minute
      later: the past check cannot fail on that path. */
  lemma DefaultDeadlineAtOneInstant(topics: set<int>, polls: seq<Poll>, topic: int, now: int)
    requires topic in topics && !HasOpenPoll(polls, topic, now)
    ensures CreateDecision(topics, polls, PollRequest(Some(topic), None), SingleInstant(now))
              == Success(now + OneMinute)
  {
    DefaultDeadline(topics, polls, topic, SingleInstant(now));
  }

  /** A deadline given explicitly is kept as it is when not before the
      check instant (equal is accepted) and rejected as InvalidParameter
      when strictly before it. */
  lemma ExplicitDeadline(topics: set<int>, polls: seq<Poll>, topic: int, endAt: int, clock: Clock)
    requires topic in topics && !HasOpenPoll(polls, topic, clock.openCheck)
    ensures endAt < clock.pastCheck ==>
              CreateDecision(topics, polls, PollRequest(Some(topic), Some(endAt)), clock)
                == Failure(InvalidParameter(PollInPast))
    ensures endAt >= clock.pastCheck ==>
              CreateDecision(topics, polls, PollRequest(Some(topic), Some(endAt)), clock)
                == Success(endAt)
  {
    CreateCheckOrder(topics, polls, PollRequest(Some(topic), Some(endAt)), clock);
  }

  /** A poll just opened is reported open at every instant from the
      open-poll check to the past check, even if the clock is set back in
      between. */
  lemma CreatedPollIsOpen(topics: set<int>, polls: seq<Poll>, req: PollRequest, clock: Clock, t: int)
    requires clock.openCheck <= t <= clock.pastCheck
    requires CreateDecision(topics, polls, req, clock).Success?
    ensures StatusAt(CreateDecision(topics, polls, req, clock).value, t) == PollOpened
  {
  }

  /** Opening a poll keeps "at most one open poll per topic" at every
      instant from the open-poll check on, provided it held before. */
  lemma CreateKeepsAtMostOneOpen(topics: set<int>, polls: seq<Poll>, req: PollRequest,
                                 clock: Clock, id: int, t: int)
    requires clock.openCheck <= t
    requires AtMostOneOpen(polls, t)
    requires CreateDecision(topics, polls, req, clock).Success?
    ensures AtMostOneOpen(polls + [Poll(id, req.topicId.value,
                                        CreateDecision(topics, polls, req, clock).value, [])], t)
  {
    var topic := req.topicId.value;
    var p := Poll(id, topic, CreateDecision(topics, polls, req, clock).value, []);
    var open := OpenPollsOf(polls, topic, clock.openCheck);
    assert |open| == 0;
    OpenPollsShrinkOverTime(polls, topic, clock.openCheck, t);
    forall other
      ensures |OpenPollsOf(polls + [p], other, t)| <= 1
    {
      OpenPollsAfterSave(polls, p, other, t);
    }
  }

  /** The open-poll query and getStatus disagree at the deadline instant:
      there a stored poll is reported open, yet a second poll on the same
      topic can be opened. */
  lemma SecondPollAtDeadlineInstant(topics: set<int>, polls: seq<Poll>, k: int, now: int)
    requires 0 <= k < |polls| && polls[k].endAt == now && polls[k].topic in topics
    requires forall i :: 0 <= i < |polls| && polls[i].topic == polls[k].topic ==> polls[i].endAt <= now
    ensures StatusAt(polls[k].endAt, now) == PollOpened
    ensures CreateDecision(topics, polls, PollRequest(Some(polls[k].topic), None), SingleInstant(now))
              == Success(now + OneMinute)
  {
    DefaultDeadlineAtOneInstant(topics, polls, polls[k].topic, now);
  }
}
