/** One cycle of the polling loop in `main` (mailtm.py:100-106) and `read_email`
    (mailtm.py:80-89).

    The cycle walks the header list in order, fetches and reports every message id not
    yet in `processed_message_ids`, and adds it to that set. The outer `while True`, the
    `print` and the 60-second sleep are left to the caller. Each message fetch is one
    executor call; `bodies[k]` holds the attempts the `(k+1)`-th fetch sees. */
module Polling {
  import opened Outcomes
  import Executor
  import opened Listing

  /** The ids of the headers `hs`. */
  function IdSet(hs: seq<Header>): set<string> {
    set h | h in hs :: h.id
  }

  /** The position of the first header with id `x`, or `|hs|` when there is none. */
  function IndexOf(hs: seq<Header>, x: string): (k: nat)
    ensures k <= |hs|
    ensures k < |hs| ==> hs[k].id == x
    ensures forall j :: 0 <= j < k ==> hs[j].id != x
  {
    if hs == [] then 0 else if hs[0].id == x then 0 else 1 + IndexOf(hs[1..], x)
  }

  /** The ids a cycle over `hs` fetches when `seen` holds the ids already processed:
      the ids not in `seen`, each once. */
  function NewIds(hs: seq<Header>, seen: set<string>): seq<string>
    decreases |hs|
  {
    if hs == [] then []
    else if hs[0].id in seen then NewIds(hs[1..], seen)
    else [hs[0].id] + NewIds(hs[1..], seen + {hs[0].id})
  }

  /** `read_email`: one executor call on the message endpoint, whose result is passed
      through unchanged. */
  method ReadEmail<M>(o: seq<Attempt<M>>) returns (r: Result<M>)
    ensures r == Executor.Execute(o)
  {
    var attempts, waits;
    r, attempts, waits := Executor.MakeRequest(o);
  }

  /** The elements of `s`. */
  function Elems(s: seq<string>): set<string> {
    set x | x in s
  }

  /** One cycle. `fetched` lists the ids whose message was requested, `reported` the
      messages printed, `seen` the new value of `processed_message_ids`, and `failure`
      the error that aborted the cycle, if one did. */
  method PollCycle<M>(headers: seq<Header>, seen0: set<string>, bodies: seq<seq<Attempt<M>>>)
    returns (failure: Option<MailTmError>, fetched: seq<string>, reported: seq<M>, seen: set<string>)
    requires |NewIds(headers, seen0)| <= |bodies|
    ensures failure.None? ==> fetched == NewIds(headers, seen0) && seen == seen0 + IdSet(headers)
    ensures failure.Some? ==>
      0 < |fetched| && fetched <= NewIds(headers, seen0) &&
      Executor.Execute(bodies[|fetched| - 1]) == Err(failure.value)
    ensures |reported| == |fetched| - (if failure.Some? then 1 else 0)
    ensures forall k :: 0 <= k < |reported| ==> Executor.Execute(bodies[k]) == Ok(reported[k])
    ensures seen == seen0 + Elems(fetched[..|reported|])
  {
    failure, fetched, reported, seen := None, [], [], seen0;
    ghost var all := NewIds(headers, seen0);
    for i := 0 to |headers|
      invariant fetched + NewIds(headers[i..], seen) == all
      invariant |reported| == |fetched|
      invariant Delivered(bodies, reported)
      invariant seen == seen0 + Elems(fetched)
    {
      var id := headers[i].id;
      NewIdsStep(headers, i, seen);
      if id !in seen {
        var email := ReadEmail(bodies[|fetched|]);
        ghost var rest := NewIds(headers[i + 1..], seen + {id});
        Advance(fetched, id, rest, all);
        fetched := fetched + [id];
        if email.Err? {
          failure := Some(email.error);
          return;
        }
        DeliveredExtend(bodies, reported, email.value);
        reported := reported + [email.value];
        seen := seen + {id};
      }
    }
    assert headers[|headers|..] == [];
    NewIdsCoverListing(headers, seen0);
  }

  /** Moving the next pending id to the fetched ones. */
  lemma Advance(fetched: seq<string>, id: string, rest: seq<string>, all: seq<string>)
    requires fetched + ([id] + rest) == all
    ensures (fetched + [id]) + rest == all
    ensures fetched + [id] <= all
    ensures Elems(fetched + [id]) == Elems(fetched) + {id}
  {
    assert (fetched + [id])[..|fetched|] == fetched;
  }

  /** The messages `reported` are, in order, what the first fetches returned. */
  ghost predicate Delivered<M>(bodies: seq<seq<Attempt<M>>>, reported: seq<M>) {
    |reported| <= |bodies| &&
    forall k :: 0 <= k < |reported| ==> Executor.Execute(bodies[k]) == Ok(reported[k])
  }

  lemma DeliveredExtend<M>(bodies: seq<seq<Attempt<M>>>, reported: seq<M>, m: M)
    requires Delivered(bodies, reported) && |reported| < |bodies|
    requires Executor.Execute(bodies[|reported|]) == Ok(m)
    ensures Delivered(bodies, reported + [m])
  {
  }

  /** One header's worth of `NewIds`. */
  lemma NewIdsStep(hs: seq<Header>, i: nat, seen: set<string>)
    requires i < |hs|
    ensures NewIds(hs[i..], seen) ==
      if hs[i].id in seen then NewIds(hs[i + 1..], seen)
      else [hs[i].id] + NewIds(hs[i + 1..], seen + {hs[i].id})
  {
    assert hs[i..][0] == hs[i] && hs[i..][1..] == hs[i + 1..];
  }

  /** A cycle fetches exactly the listed ids that are not yet in `seen`. */
  lemma {:induction false} NewIdsMembers(hs: seq<Header>, seen: set<string>)
    ensures forall x :: x in NewIds(hs, seen) <==> x !in seen && x in IdSet(hs)
    decreases |hs|
  {
    if hs != [] {
      NewIdsMembers(hs[1..], if hs[0].id in seen then seen else seen + {hs[0].id});
    }
  }

  /** Adding the ids a cycle fetches to `seen` gives `seen` plus every listed id. */
  lemma NewIdsCoverListing(hs: seq<Header>, seen: set<string>)
    ensures seen + Elems(NewIds(hs, seen)) == seen + IdSet(hs)
  {
    NewIdsMembers(hs, seen);
  }

  /** No id is fetched twice in a cycle. */
  lemma {:induction false} NewIdsDistinct(hs: seq<Header>, seen: set<string>)
    ensures forall i, j :: 0 <= i < j < |NewIds(hs, seen)| ==> NewIds(hs, seen)[i] != NewIds(hs, seen)[j]
    decreases |hs|
  {
    if hs != [] {
      var h := hs[0].id;
      if h in seen {
        NewIdsDistinct(hs[1..], seen);
        var ids, rest := NewIds(hs, seen), NewIds(hs[1..], seen);
        assert ids == rest;
        forall i, j | 0 <= i < j < |ids|
          ensures ids[i] != ids[j]
        {
          assert rest[i] != rest[j];
        }
      } else {
        NewIdsDistinct(hs[1..], seen + {h});
        NewIdsMembers(hs[1..], seen + {h});
        var rest := NewIds(hs[1..], seen + {h});
        assert h !in rest;
        assert forall j :: 0 < j < |rest| + 1 ==> ([h] + rest)[j] == rest[j - 1];
      }
    }
  }

  /** Every id of `ids` is listed in `hs`, and their first occurrences come in the order
      of `ids`. */
  ghost predicate InListingOrder(hs: seq<Header>, ids: seq<string>) {
    (forall i :: 0 <= i < |ids| ==> IndexOf(hs, ids[i]) < |hs|) &&
    forall i, j :: 0 <= i < j < |ids| ==> IndexOf(hs, ids[i]) < IndexOf(hs, ids[j])
  }

  /** A cycle's fetches follow the listing order, each id at its first occurrence. */
  lemma {:induction false} NewIdsInListingOrder(hs: seq<Header>, seen: set<string>)
    ensures InListingOrder(hs, NewIds(hs, seen))
    decreases |hs|
  {
    if hs != [] {
      var h, t := hs[0].id, hs[1..];
      var seen' := if h in seen then seen else seen + {h};
      var rest := NewIds(t, seen');
      NewIdsInListingOrder(t, seen');
      NewIdsMembers(t, seen');
      OrderPastHead(hs, rest);
      if h !in seen {
        OrderWithHead(hs, rest);
      }
    }
  }

  /** Ids other than the first header's keep their order when that header is put back. */
  lemma OrderPastHead(hs: seq<Header>, rest: seq<string>)
    requires hs != [] && InListingOrder(hs[1..], rest)
    requires forall i :: 0 <= i < |rest| ==> rest[i] != hs[0].id
    ensures InListingOrder(hs, rest)
    ensures forall i :: 0 <= i < |rest| ==> 0 < IndexOf(hs, rest[i])
  {
    forall i | 0 <= i < |rest|
      ensures IndexOf(hs, rest[i]) == 1 + IndexOf(hs[1..], rest[i])
    {
    }
  }

  /** The first header's id goes in front of ids that all occur later. */
  lemma OrderWithHead(hs: seq<Header>, rest: seq<string>)
    requires hs != [] && InListingOrder(hs, rest)
    requires forall i :: 0 <= i < |rest| ==> 0 < IndexOf(hs, rest[i])
    ensures InListingOrder(hs, [hs[0].id] + rest)
  {
    var ids := [hs[0].id] + rest;
    assert IndexOf(hs, ids[0]) == 0;
    assert forall i :: 0 < i < |ids| ==> ids[i] == rest[i - 1];
  }

  /** After a complete cycle over `h1`, `processed_message_ids` holds the old ids and
      every listed id, and no id it holds is fetched by a later cycle. */
  lemma NextCycleSkipsSeen(h1: seq<Header>, h2: seq<Header>, seen: set<string>)
    ensures forall x :: x in NewIds(h2, seen + IdSet(h1)) ==> x !in seen && x !in IdSet(h1)
  {
    NewIdsMembers(h2, seen + IdSet(h1));
  }

  /** A single header `A` is fetched once; the next cycle over the same listing fetches
      nothing. */
  lemma SingleMessageTwice()
    ensures NewIds([Header("A")], {}) == ["A"]
    ensures {} + IdSet([Header("A")]) == {"A"}
    ensures NewIds([Header("A")], {"A"}) == []
  {
  }
}
