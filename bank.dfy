/** The account store of Bank.c: one integer balance per account, accounts
    numbered from 1, kept in an array indexed from 0. The latency `usleep`
    and `free_accounts` are not modelled. */
module Bank {

  /** The balance of 1-based account `id` in the store contents `s`. */
  function Read(s: seq<int>, id: int): int
    requires 1 <= id <= |s|
  {
    s[id - 1]
  }

  /** The store contents after account `id` is set to `v`. */
  function Write(s: seq<int>, id: int, v: int): seq<int>
    requires 1 <= id <= |s|
  {
    s[id - 1 := v]
  }

  /** A read right after a write of the same account sees the written value;
      every other account reads as before, and no account appears or vanishes. */
  lemma ReadAfterWrite(s: seq<int>, id: int, v: int, other: int)
    requires 1 <= id <= |s| && 1 <= other <= |s|
    ensures |Write(s, id, v)| == |s|
    ensures Read(Write(s, id, v), id) == v
    ensures other != id ==> Read(Write(s, id, v), other) == Read(s, other)
  {
  }

  class Bank {
    /** BANK_accounts */
    var accounts: array<int>

    constructor ()
      ensures fresh(accounts) && accounts.Length == 0
    {
      accounts := new int[0];
    }

    /** initialize_accounts(n): a fresh store of `n` accounts, all zero; reports 1. */
    method InitializeAccounts(n: nat) returns (status: int)
      modifies this
      ensures fresh(accounts) && accounts.Length == n
      ensures forall i :: 0 <= i < n ==> accounts[i] == 0
      ensures status == 1
    {
      accounts := new int[n];
      var i := 0;
      while i < n
        invariant 0 <= i <= n
        invariant fresh(accounts) && accounts.Length == n
        invariant forall k :: 0 <= k < i ==> accounts[k] == 0
      {
        accounts[i] := 0;
        i := i + 1;
      }
      status := 1;
    }

    /** read_account(ID): the balance of account `id`, nothing changed. */
    method ReadAccount(id: int) returns (v: int)
      requires 1 <= id <= accounts.Length
      ensures v == Read(accounts[..], id)
    {
      v := accounts[id - 1];
    }

    /** write_account(ID, value): account `id` becomes `v`, every other one stays. */
    method WriteAccount(id: int, v: int)
      requires 1 <= id <= accounts.Length
      modifies accounts
      ensures accounts[..] == Write(old(accounts[..]), id, v)
    {
      accounts[id - 1] := v;
    }
  }
}
