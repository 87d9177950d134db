/** Memory for hash tables: what is asked for and what is granted. */
module Allocator {
  /** A request for a table of cap buckets. */
  datatype Request = Request(cap: nat, granted: bool)

  function Doubled(cap: nat, n: nat): nat {
    if n == 0 then cap else 2 * Doubled(cap, n - 1)
  }

  /** n granted requests, each for twice as many buckets as the one before. */
  function Doublings(cap: nat, n: nat): (s: seq<Request>)
    ensures |s| == n
  {
    if n == 0 then [] else Doublings(cap, n - 1) + [Request(Doubled(cap, n - 1), true)]
  }

  lemma {:induction false} DoubledTwice(cap: nat, m: nat, n: nat)
    ensures Doubled(Doubled(cap, m), n) == Doubled(cap, m + n)
    ensures Doublings(cap, m) + Doublings(Doubled(cap, m), n) == Doublings(cap, m + n)
  {
    if n == 0 {
      assert Doublings(Doubled(cap, m), 0) == [];
    } else {
      DoubledTwice(cap, m, n - 1);
      assert Doublings(cap, m) + Doublings(Doubled(cap, m), n)
          == (Doublings(cap, m) + Doublings(Doubled(cap, m), n - 1)) + [Request(Doubled(cap, m + n - 1), true)];
    }
  }

  /** What has been asked for since before: n granted requests, and one more that was refused. */
  ghost predicate Requested(before: seq<Request>, log: seq<Request>, cap: nat, n: nat, refused: bool) {
    log == before + Doublings(cap, n) + if refused then [Request(Doubled(cap, n), false)] else []
  }

  lemma NothingRequested(log: seq<Request>, cap: nat)
    ensures Requested(log, log, cap, 0, false) && Doubled(cap, 0) == cap
  {}

  lemma RequestsCount(before: seq<Request>, log: seq<Request>, cap: nat, n: nat, refused: bool)
    requires Requested(before, log, cap, n, refused)
    ensures |log| == |before| + n + if refused then 1 else 0
    ensures refused && n == 0 ==> log[|before|] == Request(cap, false)
    ensures 0 < n || refused ==> log[|before|].cap == cap
    ensures log == before <==> n == 0 && !refused
  {
    if 0 < n { FirstRequest(cap, n); }
  }

  lemma {:induction false} FirstRequest(cap: nat, n: nat)
    requires 0 < n
    ensures Doublings(cap, n)[0] == Request(cap, true)
  {
    if 1 < n {
      FirstRequest(cap, n - 1);
    }
  }

  lemma RequestedNext(before: seq<Request>, log: seq<Request>, cap: nat, n: nat, granted: bool)
    requires Requested(before, log, cap, n, false)
    ensures Requested(before, log + [Request(Doubled(cap, n), granted)], cap, if granted then n + 1 else n, !granted)
    ensures Doubled(cap, n + 1) == 2 * Doubled(cap, n)
  {}

  lemma MoreRequested(before: seq<Request>, mid: seq<Request>, log: seq<Request>, cap: nat, m: nat, n: nat,
                      refused: bool)
    requires Requested(before, mid, cap, m, false) && Requested(mid, log, Doubled(cap, m), n, refused)
    ensures Requested(before, log, cap, m + n, refused)
  {
    hide Doublings, Doubled;
    DoubledTwice(cap, m, n);
    Regroup(before, Doublings(cap, m), Doublings(Doubled(cap, m), n));
  }

  lemma Regroup<T>(a: seq<T>, b: seq<T>, c: seq<T>)
    ensures a + b + [] + c == a + b + c == a + (b + c)
  {}

  /** An allocator may refuse any request, by its size and by how many came before it. */
  class Allocator {
    const grants: (nat, nat) -> bool
    var log: seq<Request>

    /** The log tells what was granted. */
    ghost predicate Valid()
      reads this
    {
      forall i :: 0 <= i < |log| ==> log[i].granted == grants(i, log[i].cap)
    }

    constructor (grants: (nat, nat) -> bool)
      ensures Valid() && this.grants == grants && log == []
    {
      this.grants := grants;
      log := [];
    }

    /** No table of more than maxCap buckets is ever granted. */
    ghost predicate Bounded(maxCap: nat) {
      forall i, c :: c > maxCap ==> !grants(i, c)
    }

    method Ask(cap: nat) returns (granted: bool)
      requires Valid()
      modifies this
      ensures Valid() && granted == grants(|old(log)|, cap)
      ensures log == old(log) + [Request(cap, granted)]
    {
      granted := grants(|log|, cap);
      log := log + [Request(cap, granted)];
    }
  }
}
