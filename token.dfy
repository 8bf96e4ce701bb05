/**
 * The `MyToken` ink! contract: a fixed supply minted to the deployer, a
 * balance per account, and a guarded `transfer` from the caller to another
 * account. Balances are u128; the caller is passed explicitly.
 */
module Token {
  import opened Wrappers

  const BalanceLimit := 0x1_0000_0000_0000_0000_0000_0000_0000_0000

  /** `Balance`, a u128. */
  newtype u128 = x: int | 0 <= x < BalanceLimit

  /** An account address; its 32-byte encoding plays no part here. */
  datatype AccountId = AccountId(id: nat)

  datatype Error = InsufficientBalance

  /** A stored balance, 0 for an account never inserted (`unwrap_or_default`). */
  function Get(balances: map<AccountId, u128>, id: AccountId): u128 {
    if id in balances then balances[id] else 0
  }

  /** The two inserts of `transfer`, in order: the caller's reduced balance, then `to`'s increased one. */
  function AfterTransfer(balances: map<AccountId, u128>, from: AccountId, to: AccountId, amount: u128)
    : map<AccountId, u128>
    requires amount <= Get(balances, from)
    requires Get(balances, to) as int + amount as int < BalanceLimit
  {
    balances[from := Get(balances, from) - amount][to := Get(balances, to) + amount]
  }

  class MyToken {
    var totalSupply: u128
    var balances: map<AccountId, u128>

    /** `new`: the whole supply belongs to the caller. */
    constructor (caller: AccountId, supply: u128)
      ensures totalSupply == supply && balances == map[caller := supply]
    {
      totalSupply := supply;
      balances := map[caller := supply];
    }

    /** `balance_of` */
    function BalanceOf(id: AccountId): (r: u128)
      reads this
      ensures id !in balances ==> r == 0
      ensures id in balances ==> r == balances[id]
    {
      Get(balances, id)
    }

    /** `total_supply` */
    function TotalSupply(): (r: u128)
      reads this
      ensures r == totalSupply
    {
      totalSupply
    }

    /**
     * `transfer`: refuse an amount above the caller's balance and change
     * nothing; otherwise write the caller's balance minus `amount`, then
     * `to`'s balance (read before the first write) plus `amount`. The
     * addition is checked u128 arithmetic, so a caller must keep it in range.
     */
    method Transfer(caller: AccountId, to: AccountId, amount: u128) returns (r: Outcome<Error>)
      requires amount <= BalanceOf(caller) ==> BalanceOf(to) as int + amount as int < BalanceLimit
      modifies this
      ensures old(BalanceOf(caller)) < amount <==> r == Fail(InsufficientBalance)
      ensures r.Fail? ==> balances == old(balances)
      ensures r.Pass? ==> balances == AfterTransfer(old(balances), caller, to, amount)
      ensures totalSupply == old(totalSupply)
    {
      var fromBalance := BalanceOf(caller);
      if amount > fromBalance {
        return Fail(InsufficientBalance);
      }
      var toBalance := BalanceOf(to);
      balances := balances[caller := fromBalance - amount];
      balances := balances[to := toBalance + amount];
      r := Pass;
    }
  }

  /**
   * Deploying with supply `s`: `total_supply()` returns `s`, and still does
   * after a transfer to another account, whether it passes or fails.
   */
  method DeployedSupply(caller: AccountId, to: AccountId, supply: u128, amount: u128)
    returns (initial: u128, afterTransfer: u128)
    requires caller != to
    ensures initial == supply && afterTransfer == supply
  {
    var token := new MyToken(caller, supply);
    initial := token.TotalSupply();
    var _ := token.Transfer(caller, to, amount);
    afterTransfer := token.TotalSupply();
  }

  // -------------------------------------------------------------------------
  // What a transfer does to the balances
  // -------------------------------------------------------------------------

  /**
   * Between two distinct accounts the caller loses `amount`, `to` gains it,
   * their sum is unchanged and every other account keeps its balance.
   */
  lemma TransferMoves(balances: map<AccountId, u128>, from: AccountId, to: AccountId, amount: u128, other: AccountId)
    requires from != to && amount <= Get(balances, from)
    requires Get(balances, to) as int + amount as int < BalanceLimit
    ensures Get(AfterTransfer(balances, from, to, amount), from) == Get(balances, from) - amount
    ensures Get(AfterTransfer(balances, from, to, amount), to) == Get(balances, to) + amount
    ensures Get(AfterTransfer(balances, from, to, amount), from) as int + Get(AfterTransfer(balances, from, to, amount), to) as int
            == Get(balances, from) as int + Get(balances, to) as int
    ensures other != from && other != to ==> Get(AfterTransfer(balances, from, to, amount), other) == Get(balances, other)
  {
  }

  /** A transfer to oneself: the second insert overwrites the first, so the caller gains `amount`. */
  lemma SelfTransferMints(balances: map<AccountId, u128>, caller: AccountId, amount: u128)
    requires amount <= Get(balances, caller)
    requires Get(balances, caller) as int + amount as int < BalanceLimit
    ensures Get(AfterTransfer(balances, caller, caller, amount), caller) == Get(balances, caller) + amount
    ensures Sum(AfterTransfer(balances, caller, caller, amount)) == Sum(balances) + amount as int
  {
    SumUpdate(balances[caller := Get(balances, caller) - amount], caller, Get(balances, caller) + amount);
    SumUpdate(balances, caller, Get(balances, caller) - amount);
  }

  /** The deployment test: 100 minted to alice, 50 sent to bob, leaves 50 each. */
  lemma TransferExample(alice: AccountId, bob: AccountId)
    requires alice != bob
    ensures Get(map[alice := 100], alice) == 100 && Get(map[alice := 100], bob) == 0
    ensures Get(AfterTransfer(map[alice := 100], alice, bob, 50), alice) == 50
    ensures Get(AfterTransfer(map[alice := 100], alice, bob, 50), bob) == 50
  {
    TransferMoves(map[alice := 100], alice, bob, 50, alice);
  }

  // -------------------------------------------------------------------------
  // Supply accounting
  // -------------------------------------------------------------------------

  /** The sum of all stored balances. */
  ghost function Sum(balances: map<AccountId, u128>): (r: int)
    ensures r >= 0
    decreases |balances|
  {
    if balances == map[] then 0
    else
      var id :| id in balances;
      balances[id] as int + Sum(balances - {id})
  }

  /** Any stored account can be taken out of the sum first. */
  lemma {:induction false} SumRemove(balances: map<AccountId, u128>, id: AccountId)
    requires id in balances
    ensures Sum(balances) == balances[id] as int + Sum(balances - {id})
    decreases |balances|
  {
    var first :| first in balances && Sum(balances) == balances[first] as int + Sum(balances - {first});
    if first != id {
      var rest := balances - {first};
      SumRemove(rest, id);
      SumRemove(balances - {id}, first);
      assert rest - {id} == (balances - {id}) - {first};
    }
  }

  /** Writing one balance changes the sum by the difference. */
  lemma SumUpdate(balances: map<AccountId, u128>, id: AccountId, v: u128)
    ensures Sum(balances[id := v]) == Sum(balances) - Get(balances, id) as int + v as int
  {
    var m := balances[id := v];
    SumRemove(m, id);
    assert m - {id} == balances - {id};
    if id in balances {
      SumRemove(balances, id);
    } else {
      assert balances - {id} == balances;
    }
  }

  /** A fresh token: the caller's balance and the sum of balances are the supply, every other balance 0. */
  lemma NewSupply(caller: AccountId, supply: u128, other: AccountId)
    ensures Get(map[caller := supply], caller) == supply
    ensures other != caller ==> Get(map[caller := supply], other) == 0
    ensures Sum(map[caller := supply]) == supply as int
  {
    SumUpdate(map[], caller, supply);
  }

  /** A transfer between distinct accounts keeps the sum of balances, so it keeps it equal to the supply. */
  lemma TransferConserves(balances: map<AccountId, u128>, from: AccountId, to: AccountId, amount: u128)
    requires from != to && amount <= Get(balances, from)
    requires Get(balances, to) as int + amount as int < BalanceLimit
    ensures Sum(AfterTransfer(balances, from, to, amount)) == Sum(balances)
  {
    var m := balances[from := Get(balances, from) - amount];
    SumUpdate(balances, from, Get(balances, from) - amount);
    SumUpdate(m, to, Get(balances, to) + amount);
    assert Get(m, to) == Get(balances, to);
  }

  /** What a transfer to oneself evidently should do: nothing, on top of the guard. */
  function AfterTransferIntended(balances: map<AccountId, u128>, from: AccountId, to: AccountId, amount: u128)
    : map<AccountId, u128>
    requires amount <= Get(balances, from)
    requires from != to ==> Get(balances, to) as int + amount as int < BalanceLimit
  {
    if from == to then balances else AfterTransfer(balances, from, to, amount)
  }

  /** The corrected transfer keeps the sum of balances for every pair of accounts, the caller itself included. */
  lemma TransferIntendedConserves(balances: map<AccountId, u128>, from: AccountId, to: AccountId, amount: u128)
    requires amount <= Get(balances, from)
    requires from != to ==> Get(balances, to) as int + amount as int < BalanceLimit
    ensures Sum(AfterTransferIntended(balances, from, to, amount)) == Sum(balances)
    ensures Get(AfterTransferIntended(balances, from, to, amount), from)
            == if from == to then Get(balances, from) else Get(balances, from) - amount
  {
    if from != to {
      TransferConserves(balances, from, to, amount);
    }
  }
}
