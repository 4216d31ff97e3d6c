/** The transactions table and what the net-balance aggregate queries compute
    over it. `QuickBalanceAll` follows the SQL as written, including SQL's rule
    that `sum` over no rows is NULL and that arithmetic with NULL is NULL;
    `NetBalance` is the credits-minus-debits balance with empty sums read as 0. */
module Ledger {
  import opened Database

  /** One row of the `transactions` table (timestamp, signature and the other
      columns no balance query reads are left out). */
  datatype Tx = Tx(blockHeight: int, address: string, recipient: string,
                   amount: real, fee: real, reward: real)

  /** Which height filter a query applies: `block_height <= ?` on the main
      ledger, `abs(block_height) <= ?` on the mirror view (whose blocks carry
      negative heights). */
  datatype View = Main | Mirror

  function Abs(x: int): int { if x < 0 then -x else x }

  predicate InView(view: View, blockHeight: int, height: int)
  {
    match view
    case Main => blockHeight <= height
    case Mirror => Abs(blockHeight) <= height
  }

  /** What `tx` adds to the credit sum of `recipient`: `amount + reward`, or nothing. */
  function CreditOf(tx: Tx, view: View, recipient: string, height: int): seq<real>
  {
    if tx.recipient == recipient && InView(view, tx.blockHeight, height)
    then [tx.amount + tx.reward] else []
  }

  /** What `tx` adds to the debit sum of `address`: `amount + fee`, or nothing. */
  function DebitOf(tx: Tx, view: View, address: string, height: int): seq<real>
  {
    if tx.address == address && InView(view, tx.blockHeight, height)
    then [tx.amount + tx.fee] else []
  }

  /** The terms of `sum(a.amount+a.reward)`: one per row received by `recipient`
      within the height window, in ledger order. */
  function Credits(ledger: seq<Tx>, view: View, recipient: string, height: int): seq<real>
  {
    if ledger == [] then []
    else Credits(ledger[..|ledger| - 1], view, recipient, height)
         + CreditOf(ledger[|ledger| - 1], view, recipient, height)
  }

  /** The terms of `sum(b.amount+b.fee)`: one per row sent by `address` within
      the height window, in ledger order. */
  function Debits(ledger: seq<Tx>, view: View, address: string, height: int): seq<real>
  {
    if ledger == [] then []
    else Debits(ledger[..|ledger| - 1], view, address, height)
         + DebitOf(ledger[|ledger| - 1], view, address, height)
  }

  function Sum(xs: seq<real>): real
  {
    if xs == [] then 0.0 else Sum(xs[..|xs| - 1]) + xs[|xs| - 1]
  }

  /** SQL `sum`: NULL over no rows. */
  function SqlSum(xs: seq<real>): Value
  {
    if xs == [] then Null else Real(Sum(xs))
  }

  /** The single value `SQL_QUICK_BALANCE_ALL` (on `Main`) or
      `SQL_QUICK_BALANCE_ALL_MIRROR` (on `Mirror`) returns, given its four
      placeholders in textual order: the debit subquery's address and height,
      then the outer query's recipient and height. The subquery yields one row,
      so the cross join does not duplicate credit rows. */
  function QuickBalanceAll(ledger: seq<Tx>, view: View, debitAddress: string, debitHeight: int,
                           creditRecipient: string, creditHeight: int): (v: Value)
    ensures v.Null? || v.Real?
    ensures v.Real? <==> Credits(ledger, view, creditRecipient, creditHeight) != []
                         && Debits(ledger, view, debitAddress, debitHeight) != []
  {
    match (SqlSum(Credits(ledger, view, creditRecipient, creditHeight)),
           SqlSum(Debits(ledger, view, debitAddress, debitHeight)))
    case (Real(credit), Real(debit)) => Real(credit - debit)
    case _ => Null
  }

  /** The query bound to a tuple of values: text, integer, text, integer, in
      placeholder order; any other tuple is a binding the model does not give
      a meaning to (None). */
  function BindQuickBalanceAll(ledger: seq<Tx>, view: View, binds: seq<Value>): (r: Option<Value>)
    ensures r.Some? <==> |binds| == 4 && binds[0].Text? && binds[1].Int? && binds[2].Text? && binds[3].Int?
    ensures r.Some? && binds[0] == binds[2] && binds[1] == binds[3] ==>
      r.value == if Credits(ledger, view, binds[0].s, binds[1].i) != [] && Debits(ledger, view, binds[0].s, binds[1].i) != []
                 then Real(NetBalance(ledger, view, binds[0].s, binds[1].i)) else Null
  {
    if |binds| == 4 && binds[0].Text? && binds[1].Int? && binds[2].Text? && binds[3].Int?
    then Some(QuickBalanceAll(ledger, view, binds[0].s, binds[1].i, binds[2].s, binds[3].i))
    else None
  }

  /** Net balance of `address` at `height`: everything it received (amount
      plus reward) minus everything it sent (amount plus fee), counting only
      blocks within the window; an empty side counts as 0. */
  function NetBalance(ledger: seq<Tx>, view: View, address: string, height: int): (b: real)
    ensures QuickBalanceAll(ledger, view, address, height, address, height).Real? ==>
              QuickBalanceAll(ledger, view, address, height, address, height) == Real(b)
    ensures Debits(ledger, view, address, height) == [] ==> b == Sum(Credits(ledger, view, address, height))
    ensures Credits(ledger, view, address, height) == [] ==> b == -Sum(Debits(ledger, view, address, height))
  {
    Sum(Credits(ledger, view, address, height)) - Sum(Debits(ledger, view, address, height))
  }

  /** The change one transaction makes to the net balance of `address`. */
  function Delta(tx: Tx, view: View, address: string, height: int): real
  {
    Sum(CreditOf(tx, view, address, height)) - Sum(DebitOf(tx, view, address, height))
  }

  lemma SumAppend(xs: seq<real>, ys: seq<real>)
    ensures Sum(xs + ys) == Sum(xs) + Sum(ys)
    decreases |ys|
  {
    if ys == [] {
      assert xs + ys == xs;
    } else {
      var init := ys[..|ys| - 1];
      assert (xs + ys)[..|xs + ys| - 1] == xs + init;
      SumAppend(xs, init);
    }
  }

  /** The aggregate query agrees with the net balance whenever both sums have
      rows, and is NULL otherwise. */
  lemma QuickBalanceAllIsNetBalance(ledger: seq<Tx>, view: View, address: string, height: int)
    ensures QuickBalanceAll(ledger, view, address, height, address, height)
            == if Credits(ledger, view, address, height) != [] && Debits(ledger, view, address, height) != []
               then Real(NetBalance(ledger, view, address, height)) else Null
  {
  }

  /** Appending a transaction to the ledger changes the net balance of an
      address by exactly that transaction's credit minus its debit. */
  lemma {:induction false} NetBalanceAppend(ledger: seq<Tx>, tx: Tx, view: View, address: string, height: int)
    ensures NetBalance(ledger + [tx], view, address, height)
            == NetBalance(ledger, view, address, height) + Delta(tx, view, address, height)
  {
    var l := ledger + [tx];
    assert l[..|l| - 1] == ledger;
    SumAppend(Credits(ledger, view, address, height), CreditOf(tx, view, address, height));
    SumAppend(Debits(ledger, view, address, height), DebitOf(tx, view, address, height));
  }

  /** The balance is a point-in-time value: blocks appended above the height
      window leave it, and the aggregate query's answer, unchanged. */
  lemma LaterBlocksDoNotChangeBalance(ledger: seq<Tx>, later: seq<Tx>, address: string, height: int)
    requires forall k :: 0 <= k < |later| ==> later[k].blockHeight > height
    ensures Credits(ledger + later, Main, address, height) == Credits(ledger, Main, address, height)
    ensures Debits(ledger + later, Main, address, height) == Debits(ledger, Main, address, height)
    ensures NetBalance(ledger + later, Main, address, height) == NetBalance(ledger, Main, address, height)
    ensures QuickBalanceAll(ledger + later, Main, address, height, address, height)
            == QuickBalanceAll(ledger, Main, address, height, address, height)
  {
    LaterTermsIgnored(ledger, later, address, height);
  }

  lemma {:induction false} LaterTermsIgnored(ledger: seq<Tx>, later: seq<Tx>, address: string, height: int)
    requires forall k :: 0 <= k < |later| ==> later[k].blockHeight > height
    ensures Credits(ledger + later, Main, address, height) == Credits(ledger, Main, address, height)
    ensures Debits(ledger + later, Main, address, height) == Debits(ledger, Main, address, height)
    decreases |later|
  {
    if later == [] {
      assert ledger + later == ledger;
    } else {
      var init, last := later[..|later| - 1], later[|later| - 1];
      var l := ledger + later;
      assert l[..|l| - 1] == ledger + init && l[|l| - 1] == last;
      assert forall k :: 0 <= k < |init| ==> init[k] == later[k];
      LaterTermsIgnored(ledger, init, address, height);
      assert CreditOf(last, Main, address, height) == [] && DebitOf(last, Main, address, height) == [];
      assert Credits(l, Main, address, height) == Credits(ledger + init, Main, address, height) + [];
      assert Debits(l, Main, address, height) == Debits(ledger + init, Main, address, height) + [];
    }
  }

  /** On a ledger without mirror blocks (no negative heights) the mirror query
      sees exactly the rows the main query sees. */
  lemma {:induction false} MirrorAgreesOnNonNegativeHeights(ledger: seq<Tx>, address: string, height: int)
    requires forall k :: 0 <= k < |ledger| ==> ledger[k].blockHeight >= 0
    ensures Credits(ledger, Mirror, address, height) == Credits(ledger, Main, address, height)
    ensures Debits(ledger, Mirror, address, height) == Debits(ledger, Main, address, height)
    ensures QuickBalanceAll(ledger, Mirror, address, height, address, height)
            == QuickBalanceAll(ledger, Main, address, height, address, height)
    decreases |ledger|
  {
    if ledger != [] {
      var init, last := ledger[..|ledger| - 1], ledger[|ledger| - 1];
      assert forall k :: 0 <= k < |init| ==> init[k] == ledger[k];
      MirrorAgreesOnNonNegativeHeights(init, address, height);
      assert InView(Mirror, last.blockHeight, height) == InView(Main, last.blockHeight, height);
      assert CreditOf(last, Mirror, address, height) == CreditOf(last, Main, address, height);
      assert DebitOf(last, Mirror, address, height) == DebitOf(last, Main, address, height);
    }
  }
}
