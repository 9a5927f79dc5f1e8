/**
 The arithmetic of `distribute_voting_weight_uniform` in nanotest/setup.py:
 the genesis balance less a reserve is split evenly, by floor division,
 among `count` freshly created representatives, and the genesis account
 sends each of them the same share.

 Creating a wallet and sending are calls to a node. Here the n-th wallet the
 node creates is `Rep(n)`, and each send becomes a `Transfer` in a list.
 */
module VotingWeight {
  import opened Results

  /** The wallet and account the node creates on the n-th `create_wallet` call. */
  datatype Rep = Rep(index: nat)

  /** One `send` from the genesis account. */
  datatype Transfer = Transfer(to: Rep, amount: int)

  datatype SetupError =
    /** An `assert` statement at the given line of setup.py failed. */
    | AssertionFailed(line: nat)
    /** `balance_left // count` with `count == 0`. */
    | DivisionByZero

  /** What a completed call leaves behind: the representatives it returns,
      the share each was given, and the sends in the order they were made. */
  datatype Distribution = Distribution(reps: seq<Rep>, balancePerRep: int, transfers: seq<Transfer>)

  /** Python's `a // b`: the floor of `a / b`, for either sign of `b`. */
  function FloorDiv(a: int, b: int): (q: int)
    requires b != 0
    ensures b > 0 ==> q * b <= a < q * b + b
    ensures b < 0 ==> q * b + b < a <= q * b
  {
    if b > 0 then a / b else (-a) / (-b)
  }

  /** `[node.create_wallet(...) for n in range(count)]`: nothing for a
      `count` that is not positive. */
  function CreateReps(count: int): (reps: seq<Rep>)
    ensures |reps| == if count > 0 then count else 0
    ensures forall n | 0 <= n < |reps| :: reps[n] == Rep(n)
    decreases count
  {
    if count <= 0 then [] else CreateReps(count - 1) + [Rep(count - 1)]
  }

  /** The `for` loop: one send of `amount` to each representative, in order. */
  function Seed(reps: seq<Rep>, amount: int): (transfers: seq<Transfer>)
    ensures |transfers| == |reps|
    ensures forall i | 0 <= i < |reps| :: transfers[i] == Transfer(reps[i], amount)
  {
    if |reps| == 0 then [] else [Transfer(reps[0], amount)] + Seed(reps[1..], amount)
  }

  /** The sum of the amounts sent. */
  function Total(transfers: seq<Transfer>): int
  {
    if |transfers| == 0 then 0 else transfers[0].amount + Total(transfers[1..])
  }

  /** `distribute_voting_weight_uniform(node, genesis, count, reserved)` with
      the genesis balance read as `balance`. Failures come in program order:
      the assertion at line 13, the division at line 15, the assertion at
      line 16. */
  function Distribute(balance: nat, reserved: int, count: int): (r: Result<Distribution, SetupError>)
    ensures r == Err(AssertionFailed(13)) <==> reserved < 0
    ensures r == Err(DivisionByZero) <==> reserved >= 0 && count == 0
    ensures r == Err(AssertionFailed(16)) <==>
      reserved >= 0 && count != 0 && FloorDiv(balance - reserved, count) * count > balance
    ensures reserved >= 0 && count > 0 ==> r.Ok?
    ensures r.Ok? <==>
      reserved >= 0 && count != 0 && FloorDiv(balance - reserved, count) * count <= balance
    ensures r.Ok? ==> count != 0 && r.value.balancePerRep == FloorDiv(balance - reserved, count)
    ensures r.Ok? ==>
      && |r.value.reps| == (if count > 0 then count else 0)
      && (forall n | 0 <= n < |r.value.reps| :: r.value.reps[n] == Rep(n))
      && |r.value.transfers| == |r.value.reps|
      && (forall i | 0 <= i < |r.value.reps| ::
            r.value.transfers[i] == Transfer(r.value.reps[i], r.value.balancePerRep))
    ensures r.Ok? && count > 0 ==>
      r.value.balancePerRep * count <= balance - reserved < r.value.balancePerRep * count + count
  {
    var reps := CreateReps(count);
    var balanceLeft := balance - reserved;
    if !(balanceLeft <= balance) then Err(AssertionFailed(13))
    else if count == 0 then Err(DivisionByZero)
    else
      var balancePerRep := FloorDiv(balanceLeft, count);
      if !(balancePerRep * count <= balance) then Err(AssertionFailed(16))
      else Ok(Distribution(reps, balancePerRep, Seed(reps, balancePerRep)))
  }

  /** Sending the same amount to each representative sends that amount times
      their number. */
  lemma {:induction false} TotalOfUniformSeed(reps: seq<Rep>, amount: int)
    ensures Total(Seed(reps, amount)) == amount * |reps|
    decreases |reps|
  {
    if |reps| > 0 {
      TotalOfUniformSeed(reps[1..], amount);
      assert Seed(reps, amount)[1..] == Seed(reps[1..], amount);
    }
  }

  /** Everything sent is the share times the number of representatives, and
      never more than the genesis balance. */
  lemma DistributedWithinBalance(balance: nat, reserved: int, count: int)
    requires Distribute(balance, reserved, count).Ok?
    ensures var d := Distribute(balance, reserved, count).value;
      && Total(d.transfers) == d.balancePerRep * |d.reps|
      && Total(d.transfers) <= balance
  {
    var d := Distribute(balance, reserved, count).value;
    TotalOfUniformSeed(d.reps, d.balancePerRep);
  }

  /** With a positive count and a non-negative reserve the call succeeds,
      and what stays undistributed out of `balance - reserved` is a
      remainder in `[0, count)`. */
  lemma UndistributedRemainder(balance: nat, reserved: int, count: int)
    requires count > 0 && reserved >= 0
    ensures Distribute(balance, reserved, count).Ok?
    ensures var d := Distribute(balance, reserved, count).value;
      0 <= (balance - reserved) - Total(d.transfers) < count
  {
    var d := Distribute(balance, reserved, count).value;
    TotalOfUniformSeed(d.reps, d.balancePerRep);
  }

  /** Whenever the assertion at line 13 holds and `count` is positive, the
      assertion at line 16 holds too: the share times `count` never exceeds
      the genesis balance. */
  lemma SecondAssertionImplied(balance: nat, reserved: int, count: int)
    requires count > 0
    requires balance - reserved <= balance
    ensures FloorDiv(balance - reserved, count) * count <= balance
  {
  }

  /** A negative `count` creates no representatives and sends nothing, but
      the floor division rounds towards minus infinity, so the check at
      line 16 can still fail: 10 // -3 is -4, and -4 * -3 = 12 > 10. */
  lemma NegativeCountMayFailSecondAssertion()
    ensures Distribute(10, 0, -3) == Err(AssertionFailed(16))
  {
    assert FloorDiv(10, -3) == -4;
  }

}
