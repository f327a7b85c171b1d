/** The queries the service asks of its poll store: lookup by id and the
    open polls of a topic at an instant. The store's own query text is not
    part of this model; the open-poll query is taken to return the polls of
    the topic whose deadline is strictly after the instant asked about. */
module Repository {
  import opened Wrappers
  import opened Entities

  /** Lookup by id: the first stored poll with that id, if any. */
  function Find(polls: seq<Poll>, id: int): (r: Option<Poll>)
    ensures r.None? <==> forall i :: 0 <= i < |polls| ==> polls[i].id != id
    ensures r.Some? ==> r.value.id == id
    ensures r.Some? ==> exists i :: 0 <= i < |polls| && polls[i] == r.value &&
                                    forall j :: 0 <= j < i ==> polls[j].id != id
  {
    if polls == [] then None
    else if polls[0].id == id then Some(polls[0])
    else
      var r := Find(polls[1..], id);
      assert forall i :: 1 <= i < |polls| ==> polls[i] == polls[1..][i - 1];
      r
  }

  /** The polls of `topic` still accepting votes at instant `asOf`. */
  function OpenPollsOf(polls: seq<Poll>, topic: int, asOf: int): (r: seq<Poll>)
    ensures |r| <= |polls|
    ensures forall p :: p in r <==> p in polls && p.topic == topic && p.endAt > asOf
  {
    if polls == [] then []
    else
      var last := polls[|polls| - 1];
      assert polls == polls[..|polls| - 1] + [last];
      OpenPollsOf(polls[..|polls| - 1], topic, asOf)
        + (if last.topic == topic && last.endAt > asOf then [last] else [])
  }

  /** The invariant the service means to keep: no topic has two polls open
      at the same instant. */
  ghost predicate AtMostOneOpen(polls: seq<Poll>, asOf: int)
  {
    forall topic :: |OpenPollsOf(polls, topic, asOf)| <= 1
  }

  /** Time only closes polls: the later the instant, the fewer polls of a
      topic are open. */
  lemma {:induction false} OpenPollsShrinkOverTime(polls: seq<Poll>, topic: int, t1: int, t2: int)
    requires t1 <= t2
    ensures |OpenPollsOf(polls, topic, t2)| <= |OpenPollsOf(polls, topic, t1)|
  {
    if polls != [] {
      OpenPollsShrinkOverTime(polls[..|polls| - 1], topic, t1, t2);
    }
  }

  /** Saving one more poll adds it to the open polls of its topic exactly
      when its deadline is after the instant, and changes nothing else.
      This is one unfolding of `OpenPollsOf`, which peels polls off the end:
      a helper for the invariant proof, not independent evidence about the
      query. */
  lemma OpenPollsAfterSave(polls: seq<Poll>, p: Poll, topic: int, asOf: int)
    ensures OpenPollsOf(polls + [p], topic, asOf)
         == OpenPollsOf(polls, topic, asOf)
            + (if p.topic == topic && p.endAt > asOf then [p] else [])
  {
    assert (polls + [p])[..|polls|] == polls;
  }
}
