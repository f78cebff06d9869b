/** `get_mailtm_domains` (mailtm.py:37-43): one executor call on the domain listing,
    then the `domain` field of every record. */
module Domains {
  import opened Outcomes
  import Executor

  /** A record of the domain listing; only its `domain` field is read. */
  datatype DomainRecord = DomainRecord(domain: string)

  /** The list comprehension at mailtm.py:43. */
  function DomainNames(rs: seq<DomainRecord>): (names: seq<string>)
    ensures |names| == |rs|
    ensures forall i :: 0 <= i < |rs| ==> names[i] == rs[i].domain
  {
    if rs == [] then [] else [rs[0].domain] + DomainNames(rs[1..])
  }

  /** The domain names of the listing on success; the executor's error otherwise. */
  method GetDomains(o: seq<Attempt<seq<DomainRecord>>>) returns (r: Result<seq<string>>)
    ensures r.Ok? <==> Executor.Execute(o).Ok?
    ensures r.Ok? ==> r.value == DomainNames(Executor.Execute(o).value)
    ensures r.Err? ==> r.error == Executor.Execute(o).error
  {
    var records, attempts, waits := Executor.MakeRequest(o);
    match records {
      case Ok(rs) => r := Ok(DomainNames(rs));
      case Err(e) => r := Err(e);
    }
  }
}
