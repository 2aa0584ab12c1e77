/** Draining a row of quotas front to back: the schedule a weighted router turns out to follow. */
module Countdown {

  function Sum(s: seq<nat>): nat {
    if s == [] then 0 else s[0] + Sum(s[1..])
  }

  /** The slot whose cumulative interval contains `k`. */
  function Slot(s: seq<nat>, k: nat): (i: nat)
    requires k < Sum(s)
    ensures i < |s|
  {
    if k < s[0] then 0 else 1 + Slot(s[1..], k - s[0])
  }

  /** The row after `k` units were taken from the front. */
  function Drain(s: seq<nat>, k: nat): (r: seq<nat>)
    requires k <= Sum(s)
    ensures |r| == |s|
  {
    if s == [] then []
    else if k <= s[0] then [s[0] - k] + s[1..]
    else [0] + Drain(s[1..], k - s[0])
  }

  function FirstPositive(s: seq<nat>): (i: nat)
    requires 0 < Sum(s)
    ensures i < |s| && 0 < s[i]
    ensures forall j :: 0 <= j < i ==> s[j] == 0
  {
    if 0 < s[0] then 0 else 1 + FirstPositive(s[1..])
  }

  lemma {:induction false} SlotInterval(s: seq<nat>, k: nat)
    requires k < Sum(s)
    ensures Sum(s[..Slot(s, k)]) <= k < Sum(s[..Slot(s, k) + 1])
  {
    if k < s[0] {
      assert s[..1] == [s[0]] && s[..1][1..] == [];
    } else {
      var i := Slot(s[1..], k - s[0]);
      SlotInterval(s[1..], k - s[0]);
      assert s[..i + 1][1..] == s[1..][..i] && s[..i + 2][1..] == s[1..][..i + 1];
    }
  }

  lemma {:induction false} SumZero(s: seq<nat>)
    ensures Sum(s) == 0 <==> forall i :: 0 <= i < |s| ==> s[i] == 0
  {
    if s != [] {
      SumZero(s[1..]);
      assert forall i :: 1 <= i < |s| ==> s[i] == s[1..][i - 1];
      assert forall i :: 0 <= i < |s[1..]| ==> s[1..][i] == s[i + 1];
    }
  }

  lemma {:induction false} DrainSum(s: seq<nat>, k: nat)
    requires k <= Sum(s)
    ensures Sum(Drain(s, k)) == Sum(s) - k
  {
    if s != [] {
      if k <= s[0] {
        assert Drain(s, k)[1..] == s[1..];
      } else {
        DrainSum(s[1..], k - s[0]);
        assert Drain(s, k)[1..] == Drain(s[1..], k - s[0]);
      }
    }
  }

  lemma DrainNothing(s: seq<nat>)
    ensures Drain(s, 0) == s
  {
  }

  /** Past the first slot, draining is draining the others. */
  lemma DrainPastFirst(s: seq<nat>, k: nat)
    requires s != [] && s[0] <= k <= Sum(s)
    ensures Drain(s, k) == [0] + Drain(s[1..], k - s[0])
  {
    DrainNothing(s[1..]);
  }

  lemma FirstPositiveAfterZero(r: seq<nat>)
    requires 0 < Sum(r)
    ensures Sum([0] + r) == Sum(r) && FirstPositive([0] + r) == 1 + FirstPositive(r)
  {
    assert ([0] + r)[1..] == r;
  }

  /** The first slot with something left is the one whose interval comes next; taking one moves on by one. */
  lemma {:induction false} DrainNext(s: seq<nat>, k: nat)
    requires k < Sum(s)
    ensures Sum(Drain(s, k)) == Sum(s) - k
    ensures FirstPositive(Drain(s, k)) == Slot(s, k)
    ensures 0 < Drain(s, k)[Slot(s, k)]
    ensures Drain(s, k + 1) == Drain(s, k)[Slot(s, k) := Drain(s, k)[Slot(s, k)] - 1]
  {
    DrainSum(s, k);
    if s[0] <= k {
      var tail, m := s[1..], k - s[0];
      DrainNext(tail, m);
      DrainPastFirst(s, k);
      DrainPastFirst(s, k + 1);
      FirstPositiveAfterZero(Drain(tail, m));
    }
  }

  /** How often slot `i` comes up in the first `n` units. */
  function Hits(s: seq<nat>, i: nat, n: nat): nat
    requires n <= Sum(s)
  {
    if n == 0 then 0 else Hits(s, i, n - 1) + if Slot(s, n - 1) == i then 1 else 0
  }

  lemma {:induction false} HitsTakeFromSlot(s: seq<nat>, i: nat, n: nat)
    requires n <= Sum(s) && i < |s|
    ensures Hits(s, i, n) + Drain(s, n)[i] == s[i]
  {
    if n == 0 {
      DrainNothing(s);
    } else {
      HitsTakeFromSlot(s, i, n - 1);
      DrainNext(s, n - 1);
    }
  }

  /** A full pass over the row gives every slot exactly its quota. */
  lemma FullPass(s: seq<nat>, i: nat)
    requires i < |s|
    ensures Hits(s, i, Sum(s)) == s[i]
  {
    HitsTakeFromSlot(s, i, Sum(s));
    DrainSum(s, Sum(s));
    SumZero(Drain(s, Sum(s)));
  }
}
