/** `get_mailtm_headers` (mailtm.py:55-75): the paginated listing of message headers.

    Each listing request is one executor call; `ls[j]` holds the attempts that the
    `(j+1)`-th call sees, in call order. */
module Listing {
  import opened Outcomes
  import Executor

  /** A message header; only its `id` is read. */
  datatype Header = Header(id: string)

  /** A decoded listing response: its `hydra:member` list, and whether it holds a
      `hydra:next` key. */
  datatype Page = Page(members: seq<Header>, hasNext: bool)

  /** The page number the listing URL carries for the value of the counter `page`.
      The URL at mailtm.py:61 is the constant `messages?page=1?`: the counter is never
      substituted into it. */
  function PageParam(page: nat): nat {
    1
  }

  /** A listing call after which the loop requests again: it returned a page holding
      `hydra:next`. */
  predicate Continues(r: Result<Page>) {
    r.Ok? && r.value.hasNext
  }

  /** What the executor returns or raises for each listing call, in call order. */
  function Results(ls: seq<seq<Attempt<Page>>>): (rs: seq<Result<Page>>)
    ensures |rs| == |ls|
  {
    seq(|ls|, j requires 0 <= j < |ls| => Executor.Execute(ls[j]))
  }

  /** The index of the first listing call that ends the loop (it raised, or its page
      lacks `hydra:next`), or `|rs|` when none does. */
  function Halt(rs: seq<Result<Page>>): (n: nat)
    ensures n <= |rs|
    ensures forall j :: 0 <= j < n ==> Continues(rs[j])
    ensures n < |rs| ==> !Continues(rs[n])
  {
    if rs == [] || !Continues(rs[0]) then 0 else 1 + Halt(rs[1..])
  }

  /** The `hydra:member` list of a successful listing call. */
  function Members(r: Result<Page>): seq<Header> {
    if r.Ok? then r.value.members else []
  }

  /** The `hydra:member` lists of the first `n` listing calls, concatenated in order. */
  function Accumulated(rs: seq<Result<Page>>, n: nat): seq<Header>
    requires n <= |rs|
  {
    if n == 0 then [] else Accumulated(rs, n - 1) + Members(rs[n - 1])
  }

  /** What `get_mailtm_headers` returns or raises: the members of calls `1..n`, where
      call `n` is the first whose page lacks `hydra:next`, or the error of the first
      call that raised. */
  function Collected(rs: seq<Result<Page>>): Result<seq<Header>>
    requires Halt(rs) < |rs|
  {
    var n := Halt(rs);
    match rs[n]
    case Err(e) => Err(e)
    case Ok(_) => Ok(Accumulated(rs, n + 1))
  }

  /** The `while True` loop. `requests` counts listing calls and `asked` records the page
      number each of them carried. The loop ends only on a page without `hydra:next` or
      on an error, so the model requires that one of the calls supplied does so. */
  method GetHeaders(ls: seq<seq<Attempt<Page>>>)
    returns (r: Result<seq<Header>>, requests: nat, asked: seq<nat>)
    requires Halt(Results(ls)) < |ls|
    ensures r == Collected(Results(ls))
    ensures requests == Halt(Results(ls)) + 1
    ensures asked == AskedAsWritten(requests)
  {
    ghost var rs := Results(ls);
    var headers: seq<Header> := [];
    var page := 1;
    requests, asked := 0, [];
    while true
      invariant requests <= Halt(rs)
      invariant headers == Accumulated(rs, requests)
      invariant page == requests + 1
      invariant asked == AskedAsWritten(requests)
      decreases Halt(rs) - requests
    {
      asked := asked + [PageParam(page)];
      var res, attempts, waits := Executor.MakeRequest(ls[requests]);
      assert res == rs[requests];
      ListingStep(rs, requests);
      requests := requests + 1;
      if res.Err? {
        r := Err(res.error);
        return;
      }
      headers := headers + res.value.members;
      if !res.value.hasNext {
        break;
      }
      page := page + 1;
    }
    r := Ok(headers);
  }

  /** One listing call's worth of `Halt` and `Accumulated`. */
  lemma ListingStep(rs: seq<Result<Page>>, n: nat)
    requires n <= Halt(rs) < |rs|
    ensures Continues(rs[n]) ==> n < Halt(rs)
    ensures !Continues(rs[n]) ==> n == Halt(rs)
    ensures Accumulated(rs, n + 1) == Accumulated(rs, n) + Members(rs[n])
  {
  }

  /** Accumulating more calls only appends: the first `m` calls' members are a prefix. */
  lemma {:induction false} AccumulatedPrefix(rs: seq<Result<Page>>, m: nat, n: nat)
    requires m <= n <= |rs|
    ensures Accumulated(rs, m) <= Accumulated(rs, n)
  {
    if m < n {
      AccumulatedPrefix(rs, m, n - 1);
    }
  }

  /** Pagination is complete and in order: the members of every listing call `j` up to
      the last sit, unchanged, right after those of the calls before it. */
  lemma {:induction false} CollectedKeepsEveryPage(rs: seq<Result<Page>>, j: nat)
    requires Halt(rs) < |rs| && Collected(rs).Ok? && j <= Halt(rs)
    ensures rs[j].Ok?
    ensures var all := Collected(rs).value;
      var lo := |Accumulated(rs, j)|;
      |Accumulated(rs, j + 1)| <= |all| &&
      all[lo..|Accumulated(rs, j + 1)|] == rs[j].value.members
  {
    AccumulatedPrefix(rs, j + 1, Halt(rs) + 1);
    assert Accumulated(rs, j + 1) == Accumulated(rs, j) + rs[j].value.members;
  }

  /** A listing call that raises makes the whole collection raise that error; the pages
      gathered before it are lost. */
  lemma CollectedFailsWithFirstError(rs: seq<Result<Page>>)
    requires Halt(rs) < |rs|
    ensures Collected(rs).Err? <==> rs[Halt(rs)].Err?
    ensures Collected(rs).Err? ==> Collected(rs).error == rs[Halt(rs)].error
  {
  }

  /** Three pages, the first two with `hydra:next`, each served at the first attempt:
      three requests gather all headers. */
  lemma ThreePages(a: seq<Header>, b: seq<Header>, c: seq<Header>)
    ensures var rs := Results([[Reply(200, Page(a, true))], [Reply(200, Page(b, true))],
                               [Reply(200, Page(c, false))]]);
      Halt(rs) == 2 && Collected(rs) == Ok(a + b + c)
  {
    var ls := [[Reply(200, Page(a, true))], [Reply(200, Page(b, true))],
               [Reply(200, Page(c, false))]];
    var rs := Results(ls);
    assert rs[0] == Executor.Execute(ls[0]) == Ok(Page(a, true));
    assert rs[1] == Executor.Execute(ls[1]) == Ok(Page(b, true));
    assert rs[2] == Executor.Execute(ls[2]) == Ok(Page(c, false));
    assert rs[1..][1..] == [rs[2]];
    assert Halt(rs) == 2;
    assert Accumulated(rs, 1) == a;
    assert Accumulated(rs, 2) == a + b;
  }

  // A provider that honours the page parameter, used to show what the constant URL
  // of mailtm.py:61 does against it.

  /** Page `p` (counted from 1) of `pages`, with `hydra:next` while a later page exists. */
  function Serve(pages: seq<seq<Header>>, p: nat): Page {
    if 1 <= p <= |pages| then Page(pages[p - 1], p < |pages|) else Page([], false)
  }

  /** The listing calls such a provider answers for requests carrying the page numbers
      `asked`, each with status 200 at the first attempt. */
  function Replies(pages: seq<seq<Header>>, asked: seq<nat>): seq<seq<Attempt<Page>>> {
    seq(|asked|, j requires 0 <= j < |asked| => [Reply(200, Serve(pages, asked[j]))])
  }

  /** Each such call returns the page asked for. */
  lemma RepliesServe(pages: seq<seq<Header>>, asked: seq<nat>)
    ensures |Results(Replies(pages, asked))| == |asked|
    ensures forall j :: 0 <= j < |asked| ==>
      Results(Replies(pages, asked))[j] == Ok(Serve(pages, asked[j]))
  {
    var ls := Replies(pages, asked);
    forall j | 0 <= j < |asked|
      ensures Results(ls)[j] == Ok(Serve(pages, asked[j]))
    {
      Executor.SuccessOnFirstHit(ls[j], 0);
    }
  }

  /** The concatenation of `pages`. */
  function Flatten(pages: seq<seq<Header>>): seq<Header> {
    if pages == [] then [] else Flatten(pages[..|pages| - 1]) + pages[|pages| - 1]
  }

  /** The page number the listing URL was evidently meant to carry: the counter. */
  function IntendedPageParam(page: nat): nat {
    page
  }

  /** The page numbers carried by the first `n` requests, as written: all of them 1. */
  function AskedAsWritten(n: nat): (asked: seq<nat>)
    ensures |asked| == n && forall j :: 0 <= j < n ==> asked[j] == 1
  {
    if n == 0 then [] else AskedAsWritten(n - 1) + [PageParam(n)]
  }

  /** The page numbers the first `n` requests were meant to carry: 1, 2, ..., n. */
  function AskedIntended(n: nat): (asked: seq<nat>)
    ensures |asked| == n && forall j :: 0 <= j < n ==> asked[j] == j + 1
  {
    if n == 0 then [] else AskedIntended(n - 1) + [IntendedPageParam(n)]
  }

  /** As written, against a provider with two pages or more, every request gets page 1
      back with `hydra:next`: however many calls are made, none ends the loop, which
      re-reads page 1 forever. */
  lemma {:induction false} AsWrittenNeverHalts(pages: seq<seq<Header>>, n: nat)
    requires |pages| >= 2
    ensures var rs := Results(Replies(pages, AskedAsWritten(n)));
      Halt(rs) == n && forall j :: 0 <= j < n ==> rs[j] == Ok(Page(pages[0], true))
  {
    RepliesServe(pages, AskedAsWritten(n));
    HaltAtEnd(Results(Replies(pages, AskedAsWritten(n))));
  }

  /** When every call continues, `Halt` is the number of calls. */
  lemma {:induction false} HaltAtEnd(rs: seq<Result<Page>>)
    requires forall j :: 0 <= j < |rs| ==> Continues(rs[j])
    ensures Halt(rs) == |rs|
  {
    if rs != [] {
      assert forall j :: 0 <= j < |rs| - 1 ==> rs[1..][j] == rs[j + 1];
      HaltAtEnd(rs[1..]);
    }
  }

  /** With the counter in the URL, the same provider is read page by page: the loop
      ends on the last page, after `|pages|` requests, with all headers in order. */
  lemma {:induction false} IntendedCollectsAllPages(pages: seq<seq<Header>>)
    requires |pages| >= 1
    ensures var rs := Results(Replies(pages, AskedIntended(|pages|)));
      Halt(rs) == |pages| - 1 && Collected(rs) == Ok(Flatten(pages))
  {
    var asked := AskedIntended(|pages|);
    var rs := Results(Replies(pages, asked));
    RepliesServe(pages, asked);
    forall j | 0 <= j < |pages|
      ensures rs[j] == Ok(Page(pages[j], j + 1 < |pages|))
    {
      assert asked[j] == j + 1;
    }
    var last := |pages| - 1;
    forall j | 0 <= j < last
      ensures Continues(rs[..last][j])
    {
      assert rs[..last][j] == rs[j];
    }
    HaltAtEnd(rs[..last]);
    HaltPrefix(rs, last);
    AccumulatedFlatten(pages, rs, |pages|);
    assert pages[..|pages|] == pages;
  }

  /** `Halt` is found at `k` when the first `k` calls continue and call `k` does not. */
  lemma {:induction false} HaltPrefix(rs: seq<Result<Page>>, k: nat)
    requires k < |rs| && Halt(rs[..k]) == k && !Continues(rs[k])
    ensures Halt(rs) == k
  {
    forall j | 0 <= j < k
      ensures Continues(rs[j])
    {
      assert rs[..k][j] == rs[j];
    }
  }

  /** Calls answered page by page accumulate the concatenation of those pages. */
  lemma {:induction false} AccumulatedFlatten(pages: seq<seq<Header>>, rs: seq<Result<Page>>, n: nat)
    requires n <= |pages| == |rs|
    requires forall j :: 0 <= j < |pages| ==> Members(rs[j]) == pages[j]
    ensures Accumulated(rs, n) == Flatten(pages[..n])
  {
    if n > 0 {
      AccumulatedFlatten(pages, rs, n - 1);
      assert pages[..n][..n - 1] == pages[..n - 1];
    }
  }
}
