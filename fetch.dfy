/**
 * The request loop of `JavDBMagnetCrawler._make_request`: up to `retries + 1`
 * attempts, a random 2-5 s delay before every attempt but the first, a random
 * 1-3 s delay after a success, and an exponential back-off of `2 ** attempt`
 * seconds after each failure except the last. The network is the function
 * `send` from the attempt number to a response (`None` for a raised
 * `RequestException`); the sleeps are returned as data instead of taken.
 */
module Fetch {
  import opened Wrappers
  import opened Text

  /** A sleep the loop takes: `random_delay(lo, hi)` or `time.sleep(seconds)`. */
  datatype Pause = Jitter(lo: nat, hi: nat) | Backoff(seconds: nat)

  /** `2 ** n` */
  function Pow2(n: nat): (r: nat)
    ensures r >= 1
  {
    if n == 0 then 1 else 2 * Pow2(n - 1)
  }

  /** The delay taken before attempt `k`. */
  function RetryDelay(k: nat): seq<Pause> {
    if k > 0 then [Jitter(2, 5)] else []
  }

  /** The sleeps of `n` attempts that all failed and were each followed by a back-off. */
  function FailedRounds(n: nat): seq<Pause> {
    if n == 0 then [] else FailedRounds(n - 1) + RetryDelay(n - 1) + [Backoff(Pow2(n - 1))]
  }

  /**
   * The response `_make_request` ends with: that of the first of the
   * attempts `0 .. retries` that succeeds, or `None` when there is none.
   */
  function FirstResponse<R>(send: nat -> Option<R>, retries: int): (r: Option<R>)
    ensures r.None? <==> forall j :: 0 <= j <= retries ==> send(j).None?
    ensures r.Some? ==> exists j :: 0 <= j <= retries && r == send(j) && forall i :: 0 <= i < j ==> send(i).None?
  {
    if retries < 0 then None
    else
      var ok := (j: nat) => send(j).Some?;
      assert forall j: nat :: ok(j) == send(j).Some?;
      match FirstFrom(retries, 0, ok)
      case Some(j) => send(j)
      case None => None
  }

  /** Two first successes are the same attempt. */
  lemma FirstSuccessUnique<R>(send: nat -> Option<R>, a: nat, b: nat)
    requires send(a).Some? && forall i :: 0 <= i < a ==> send(i).None?
    requires send(b).Some? && forall i :: 0 <= i < b ==> send(i).None?
    ensures a == b
  {
  }

  /**
   * `_make_request`: the response of the first attempt that succeeds, or
   * `None` when every attempt fails (and at once when `retries` is negative);
   * how many attempts were sent; and the sleeps taken, in order.
   */
  method MakeRequest<R>(send: nat -> Option<R>, retries: int) returns (response: Option<R>, attempts: nat, pauses: seq<Pause>)
    ensures retries < 0 ==> attempts == 0
    ensures retries >= 0 ==> 1 <= attempts <= retries + 1
    ensures forall j :: 0 <= j && j + 1 < attempts ==> send(j).None?
    ensures response.Some? ==> attempts >= 1 && response == send(attempts - 1)
    ensures response.Some? ==> pauses == FailedRounds(attempts - 1) + RetryDelay(attempts - 1) + [Jitter(1, 3)]
    ensures response.None? ==> retries < 0 || (attempts == retries + 1 && send(retries).None?)
    ensures response.None? ==> pauses == if retries < 0 then [] else FailedRounds(retries) + RetryDelay(retries)
    ensures response == FirstResponse(send, retries)
  {
    response := None;
    attempts := 0;
    pauses := [];
    var attempt: nat := 0;
    while attempt <= retries
      invariant attempt == 0 || attempt <= retries
      invariant attempts == attempt
      invariant pauses == FailedRounds(attempt)
      invariant forall j :: 0 <= j < attempt ==> send(j).None?
      decreases retries + 1 - attempt
    {
      pauses := pauses + RetryDelay(attempt);
      attempts := attempts + 1;
      var r := send(attempt);
      if r.Some? {
        pauses := pauses + [Jitter(1, 3)];
        response := r;
        ghost var first := FirstResponse(send, retries);
        assert first.Some?;
        ghost var j :| 0 <= j <= retries && first == send(j) && forall i :: 0 <= i < j ==> send(i).None?;
        FirstSuccessUnique(send, j, attempt);
        return;
      }
      if attempt == retries {
        return;
      }
      pauses := pauses + [Backoff(Pow2(attempt))];
      attempt := attempt + 1;
    }
  }

  /** The back-off lengths among `ps`, in order. */
  function Backoffs(ps: seq<Pause>): seq<nat> {
    if ps == [] then []
    else
      var last := ps[|ps| - 1];
      Backoffs(ps[..|ps| - 1]) + (if last.Backoff? then [last.seconds] else [])
  }

  /** Seconds spent in back-off. */
  function Total(xs: seq<nat>): nat {
    if xs == [] then 0 else Total(xs[..|xs| - 1]) + xs[|xs| - 1]
  }

  /** Each failed round adds one back-off, of `2 ** (n - 1)` seconds. */
  lemma BackoffsStep(n: nat)
    requires n > 0
    ensures Backoffs(FailedRounds(n)) == Backoffs(FailedRounds(n - 1)) + [Pow2(n - 1)]
  {
      var prev := FailedRounds(n - 1);
      var ps := FailedRounds(n);
      assert ps[..|ps| - 1] == prev + RetryDelay(n - 1);
      if n - 1 > 0 {
        assert (prev + RetryDelay(n - 1))[..|prev|] == prev;
      } else {
        assert prev + RetryDelay(n - 1) == prev;
      }
  }

  /** The back-offs after `n` failures double from one second: 1, 2, 4, … */
  lemma {:induction false} FailedRoundsBackoffs(n: nat)
    ensures |Backoffs(FailedRounds(n))| == n
    ensures forall j :: 0 <= j < n ==> Backoffs(FailedRounds(n))[j] == Pow2(j)
  {
    if n > 0 {
      FailedRoundsBackoffs(n - 1);
      BackoffsStep(n);
      var prev := Backoffs(FailedRounds(n - 1));
      forall j | 0 <= j < n ensures Backoffs(FailedRounds(n))[j] == Pow2(j) {
        if j < n - 1 {
          assert Backoffs(FailedRounds(n))[j] == prev[j];
        }
      }
    }
  }

  /** Together the back-offs after `n` failures last `2 ** n - 1` seconds. */
  lemma {:induction false} TotalBackoff(n: nat)
    ensures Total(Backoffs(FailedRounds(n))) == Pow2(n) - 1
  {
    if n > 0 {
      TotalBackoff(n - 1);
      BackoffsStep(n);
      var bs := Backoffs(FailedRounds(n));
      assert bs[..|bs| - 1] == Backoffs(FailedRounds(n - 1));
    }
  }

  /**
   * With the default `retries=3`, a request that keeps failing is sent four
   * times and backs off 1 + 2 + 4 = 7 seconds in all.
   */
  lemma DefaultRetriesGiveUpAfterSevenSeconds()
    ensures Backoffs(FailedRounds(3) + RetryDelay(3)) == [1, 2, 4]
    ensures Total(Backoffs(FailedRounds(3) + RetryDelay(3))) == 7
  {
    FailedRoundsBackoffs(3);
    TotalBackoff(3);
    var ps := FailedRounds(3) + RetryDelay(3);
    assert ps[..|ps| - 1] == FailedRounds(3);
    assert Backoffs(FailedRounds(3)) == [1, 2, 4];
  }
}
