/**
 * `FlowClient::wait_for_seal` (src/core/flow.rs): polls the access node
 * for a transaction's result until it is sealed, expired, or the attempt
 * budget is spent, sleeping two seconds between polls. The access node is
 * an oracle: `responses(i)` is what the (i+1)-th poll returns, a result or
 * a transport error. Sleeps are counted, not timed.
 */
module Seal {
  import opened Errors
  import Text
  import Flow

  /** The part of `TransactionResultResponse` the program reads. `status`
      is the ledger's status code: 0 unknown, 1 pending, 2 finalized,
      3 executed, 4 sealed, 5 expired. */
  datatype TransactionResult = TransactionResult(status: int, statusCode: nat, errorMessage: string)

  const SealedStatus: int := 4
  const ExpiredStatus: int := 5

  const Expired: Error := Error.Transaction("Transaction expired")

  function NotSealed(maxAttempts: nat): Error
  {
    Error.Transaction("Transaction not sealed after " + Text.NatToString(maxAttempts) + " attempts")
  }

  /** A poll that ends the waiting: a transport error, sealed, or expired. */
  predicate Stops(response: Result<TransactionResult>) {
    response.Err? || response.value.status == SealedStatus || response.value.status == ExpiredStatus
  }

  /** The index of the first poll in `from..n` that ends the waiting, or `n`
      when none does. */
  function FirstStop(responses: nat -> Result<TransactionResult>, n: nat, from: nat): (k: nat)
    requires from <= n
    ensures from <= k <= n
    ensures forall i :: from <= i < k ==> !Stops(responses(i))
    ensures k < n ==> Stops(responses(k))
    decreases n - from
  {
    if from == n then n
    else if Stops(responses(from)) then from
    else FirstStop(responses, n, from + 1)
  }

  /** What waiting with a budget of `maxAttempts` polls returns, with the
      number of polls and sleeps, stated without a loop: the first poll that
      stops decides the outcome; every poll before it was followed by one
      sleep; a budget spent without a stop ends in the timeout error after
      `maxAttempts` polls and one sleep fewer. */
  function Expected(responses: nat -> Result<TransactionResult>, maxAttempts: nat): (Result<TransactionResult>, nat, nat)
  {
    var k := FirstStop(responses, maxAttempts, 0);
    if k == maxAttempts then
      (Err(NotSealed(maxAttempts)), maxAttempts, if maxAttempts == 0 then 0 else maxAttempts - 1)
    else
      var outcome :=
        match responses(k)
        case Err(e) => Err(e)
        case Ok(result) => if result.status == SealedStatus then Ok(result) else Err(Expired);
      (outcome, k + 1, k)
  }

  /** The polling loop. */
  method WaitForSeal(responses: nat -> Result<TransactionResult>, maxAttempts: Flow.u32)
    returns (r: Result<TransactionResult>, polls: nat, sleeps: nat)
    ensures (r, polls, sleeps) == Expected(responses, maxAttempts)
    ensures polls <= maxAttempts
    ensures polls == 0 ==> sleeps == 0
    ensures polls > 0 ==> sleeps == polls - 1
    ensures r.Ok? ==> r.value.status == SealedStatus
  {
    polls, sleeps := 0, 0;
    var attempt: nat := 1;
    while attempt <= maxAttempts
      invariant 1 <= attempt <= maxAttempts + 1
      invariant polls == attempt - 1
      invariant sleeps == (if attempt <= maxAttempts then attempt - 1 else if maxAttempts == 0 then 0 else maxAttempts - 1)
      invariant forall i :: 0 <= i < attempt - 1 ==> !Stops(responses(i))
    {
      var response := responses(attempt - 1);
      polls := polls + 1;
      if response.Err? {
        StopAt(responses, maxAttempts, attempt - 1);
        return Err(response.error), polls, sleeps;
      }
      var result := response.value;
      if result.status == SealedStatus {
        StopAt(responses, maxAttempts, attempt - 1);
        return Ok(result), polls, sleeps;
      } else if result.status == ExpiredStatus {
        StopAt(responses, maxAttempts, attempt - 1);
        return Err(Expired), polls, sleeps;
      }
      if attempt < maxAttempts {
        sleeps := sleeps + 1;
      }
      attempt := attempt + 1;
    }
    NoStop(responses, maxAttempts);
    r := Err(NotSealed(maxAttempts));
  }

  /** A poll that stops after polls that did not is the first stop. */
  lemma {:induction false} StopAt(responses: nat -> Result<TransactionResult>, n: nat, k: nat)
    requires k < n && Stops(responses(k))
    requires forall i :: 0 <= i < k ==> !Stops(responses(i))
    ensures FirstStop(responses, n, 0) == k
  {
    StopAtFrom(responses, n, 0, k);
  }

  lemma {:induction false} StopAtFrom(responses: nat -> Result<TransactionResult>, n: nat, from: nat, k: nat)
    requires from <= k < n && Stops(responses(k))
    requires forall i :: from <= i < k ==> !Stops(responses(i))
    ensures FirstStop(responses, n, from) == k
    decreases k - from
  {
    if from < k {
      StopAtFrom(responses, n, from + 1, k);
    }
  }

  /** When no poll within the budget stops, the first stop is the budget. */
  lemma {:induction false} NoStop(responses: nat -> Result<TransactionResult>, n: nat)
    requires forall i :: 0 <= i < n ==> !Stops(responses(i))
    ensures FirstStop(responses, n, 0) == n
  {
  }

  /** A budget of zero polls nothing and times out at once. */
  lemma ZeroBudget(responses: nat -> Result<TransactionResult>)
    ensures Expected(responses, 0) == (Err(NotSealed(0)), 0, 0)
  {
  }

  /** An expired first answer fails at once, after one poll and no sleep. */
  lemma ExpiredAtOnce(responses: nat -> Result<TransactionResult>, maxAttempts: nat)
    requires maxAttempts > 0
    requires responses(0).Ok? && responses(0).value.status == ExpiredStatus
    ensures Expected(responses, maxAttempts) == (Err(Expired), 1, 0)
  {
  }

  /** A transaction that stays pending for `m` polls and then is sealed is
      returned after `m + 1` polls and `m` sleeps, provided the budget
      allows that many polls; otherwise the wait times out. */
  lemma PendingThenSealed(responses: nat -> Result<TransactionResult>, maxAttempts: nat, m: nat, sealed: TransactionResult)
    requires forall i :: 0 <= i < m ==> responses(i) == Ok(TransactionResult(1, 0, ""))
    requires sealed.status == SealedStatus && responses(m) == Ok(sealed)
    ensures m < maxAttempts ==> Expected(responses, maxAttempts) == (Ok(sealed), m + 1, m)
    ensures m >= maxAttempts ==> Expected(responses, maxAttempts).0 == Err(NotSealed(maxAttempts))
  {
    if m < maxAttempts {
      StopAt(responses, maxAttempts, m);
    } else {
      NoStop(responses, maxAttempts);
    }
  }
}
