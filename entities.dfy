/** The records the poll service works on: votes, polls, the request that
    asks for a new poll, and the error kinds with their fixed message keys. */
module Entities {
  import opened Wrappers

  /** The choice a member makes when voting. */
  datatype Choice = Yes | No

  /** One vote: its choice and the member who cast it. The poll it belongs
      to is the poll whose vote list holds it. */
  datatype Vote = Vote(choice: Choice, user: int)

  /** A voting session on a topic. Instants are whole seconds; a poll's
      status is never stored, it is derived from `endAt` when asked. */
  datatype Poll = Poll(id: int, topic: int, endAt: int, votes: seq<Vote>)

  /** What a caller sends to open a poll: both fields may be absent. */
  datatype PollRequest = PollRequest(topicId: Option<int>, endAt: Option<int>)

  /** The fixed message keys the service attaches to its errors. */
  datatype Message =
    | RequiredTopicField
    | TopicNotFound
    | PollNotFound
    | PollWithTopicAlreadyRunning
    | PollInPast

  /** The error kinds the service raises, each with its message key. */
  datatype Error =
    | MissingParameter(key: Message)
    | ResourceNotFound(key: Message)
    | InvalidParameter(key: Message)

  /** One minute, the default length of a poll, in seconds. */
  const OneMinute: int := 60
}
