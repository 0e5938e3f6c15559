/** Work sent in chunks while a helper contract holds a role, and the role handed back. */
module Handover {
  import opened Collections

  /** A transaction either hands the role to an account or does a batch of work. */
  datatype Tx<T> = HandTo(owner: string) | Work(batch: T)

  /** A contract with an owner, and the transactions sent to it. */
  class OwnedContract<T> {
    var owner: string
    var trace: seq<Tx<T>>

    constructor (owner: string)
      ensures this.owner == owner && trace == []
    {
      this.owner := owner;
      trace := [];
    }

    method Send(tx: Tx<T>)
      modifies this
      ensures trace == old(trace) + [tx]
      ensures owner == OwnerAfter(old(owner), [tx])
    {
      trace := trace + [tx];
      if tx.HandTo? { owner := tx.owner; }
    }
  }

  function OwnerAfter<T>(owner: string, trace: seq<Tx<T>>): string
    decreases |trace|
  {
    if trace == [] then owner
    else OwnerAfter(if trace[0].HandTo? then trace[0].owner else owner, trace[1..])
  }

  function Works<T>(batches: seq<T>): seq<Tx<T>> {
    Map(batches, (batch: T) => Work(batch))
  }

  /** The protocol: to the helper, the batches, back to the administrator. */
  function HandedOver<T>(helper: string, admin: string, batches: seq<T>): seq<Tx<T>> {
    [HandTo(helper)] + Works(batches) + [HandTo(admin)]
  }

  lemma {:induction false} OwnerAfterConcat<T>(owner: string, trace: seq<Tx<T>>, more: seq<Tx<T>>)
    ensures OwnerAfter(owner, trace + more) == OwnerAfter(OwnerAfter(owner, trace), more)
    decreases |trace|
  {
    if trace == [] {
      assert trace + more == more;
    } else {
      assert (trace + more)[1..] == trace[1..] + more;
      OwnerAfterConcat(if trace[0].HandTo? then trace[0].owner else owner, trace[1..], more);
    }
  }

  lemma {:induction false} WorkKeepsOwner<T>(owner: string, trace: seq<Tx<T>>)
    requires forall tx <- trace :: tx.Work?
    ensures OwnerAfter(owner, trace) == owner
  {
    if trace == [] {
    } else {
      assert trace[0] in trace;
      WorkKeepsOwner(owner, trace[1..]);
    }
  }

  /** At every point of the protocol, also where a run stops early, the helper owns the contract
      from the first transaction to the last one, which makes the administrator the owner. */
  lemma OwnerDuringHandover<T>(initial: string, helper: string, admin: string, batches: seq<T>, k: nat)
    requires k <= |HandedOver(helper, admin, batches)|
    ensures OwnerAfter(initial, HandedOver(helper, admin, batches)[..k])
            == if k == 0 then initial else if k < |HandedOver(helper, admin, batches)| then helper else admin
  {
    var trace, works := HandedOver(helper, admin, batches), Works(batches);
    if k > 0 {
      var inside := if k < |trace| then k else |trace| - 1;
      assert trace[..inside] == [HandTo(helper)] + works[..inside - 1];
      OwnerAfterConcat(initial, [HandTo(helper)], works[..inside - 1]);
      WorkKeepsOwner(helper, works[..inside - 1]);
      if k == |trace| {
        assert trace[..k] == trace[..inside] + [HandTo(admin)];
        OwnerAfterConcat(initial, trace[..inside], [HandTo(admin)]);
      }
    }
  }

  /** Whatever owns the contract beforehand, every batch is worked on under the helper. */
  lemma WorkRunsUnderHelper<T>(initial: string, helper: string, admin: string, batches: seq<T>, k: nat)
    requires k < |HandedOver(helper, admin, batches)| && HandedOver(helper, admin, batches)[k].Work?
    ensures OwnerAfter(initial, HandedOver(helper, admin, batches)[..k]) == helper
  {
    OwnerDuringHandover(initial, helper, admin, batches, k);
  }

  /** Hands the role over, sends the batches one by one, and hands the role back. */
  method SendUnderHelper<T>(contract: OwnedContract<T>, helper: string, admin: string, batches: seq<T>)
    modifies contract
    ensures contract.trace == old(contract.trace) + HandedOver(helper, admin, batches)
    ensures contract.owner == admin
  {
    contract.Send(HandTo(helper));
    for i := 0 to |batches|
      invariant contract.trace == old(contract.trace) + [HandTo(helper)] + Works(batches)[..i]
      invariant contract.owner == helper
    {
      contract.Send(Work(batches[i]));
    }
    contract.Send(HandTo(admin));
  }
}
