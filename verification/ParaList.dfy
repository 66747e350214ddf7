/** The locked in-flight list of `AdParaList.h` and the adapter's block pool, as the code runs
    them: each method below is one critical section, or the handler loop around several.  */
module ParaList {
  import opened Seqs

  class Para {
    var timeout: bool

    constructor ()
      ensures !timeout
    {
      timeout := false;
    }
  }

  function Flags(items: seq<Para>): (f: seq<bool>)
    reads set p | p in items
    ensures |f| == |items| && forall i :: 0 <= i < |f| ==> f[i] == items[i].timeout
  {
    seq(|items|, i requires 0 <= i < |items| reads set p | p in items => items[i].timeout)
  }

  /** The elements whose flag is off, in order. */
  ghost function InTime<T>(items: seq<T>, flags: seq<bool>): seq<T>
    requires |items| == |flags|
  {
    if items == [] then []
    else InTime(items[..|items| - 1], flags[..|items| - 1]) + if flags[|items| - 1] then [] else [items[|items| - 1]]
  }

  lemma InTimeStep<T>(items: seq<T>, flags: seq<bool>, i: nat)
    requires |items| == |flags| && i < |items|
    ensures InTime(items[..i + 1], flags[..i + 1])
      == InTime(items[..i], flags[..i]) + if flags[i] then [] else [items[i]]
  {
    assert items[..i + 1][..i] == items[..i] && flags[..i + 1][..i] == flags[..i];
  }

  lemma InTimeNone<T>(items: seq<T>, flags: seq<bool>)
    requires |items| == |flags|
    ensures InTime(items[..0], flags[..0]) == []
  {
  }

  /** How far a check gets: past all that are late already or whose life is over. */
  ghost function Reached(flags: seq<bool>, over: seq<bool>): (k: nat)
    requires |flags| == |over|
    ensures k <= |flags|
  {
    if flags == [] || !(flags[0] || over[0]) then 0 else 1 + Reached(flags[1..], over[1..])
  }

  lemma {:induction false} ReachedAt(flags: seq<bool>, over: seq<bool>, k: nat)
    requires |flags| == |over| && k <= |flags|
    requires forall i :: 0 <= i < k ==> flags[i] || over[i]
    requires k < |flags| ==> !flags[k] && !over[k]
    ensures Reached(flags, over) == k
  {
    if k > 0 {
      ReachedAt(flags[1..], over[1..], k - 1);
    }
  }

  class Adapter {
    var freePara: seq<Para>
    const capacity: nat
    // The requests whose source was closed, and the blocks given up, in order.
    ghost var closed: seq<Para>
    ghost var freed: seq<Para>

    constructor (capacity: nat)
      ensures freePara == [] && closed == [] && freed == [] && this.capacity == capacity
    {
      freePara, closed, freed := [], [], [];
      this.capacity := capacity;
    }

    /** `AllocPara`: a pooled block, cleared, or a new one. */
    method AllocPara() returns (p: Para)
      modifies this`freePara, if freePara != [] then {freePara[0]} else {}
      ensures !p.timeout
      ensures if old(freePara) == [] then fresh(p) && freePara == []
        else p == old(freePara[0]) && freePara == old(freePara[1..])
    {
      if freePara != [] {
        p := freePara[0];
        freePara := freePara[1..];
        p.timeout := false;
      } else {
        p := new Para();
      }
    }

    /** `FreePara`: back to the pool unless that is full. */
    method FreePara(p: Para)
      modifies this`freePara, this`freed
      ensures freed == old(freed) + [p]
      ensures freePara == if |old(freePara)| < capacity then old(freePara) + [p] else old(freePara)
    {
      if |freePara| < capacity {
        freePara := freePara + [p];
      }
      freed := freed + [p];
    }

    /** The source session gets its answer, real or empty, and is set idle. */
    method CloseSource(p: Para)
      modifies this`closed
      ensures closed == old(closed) + [p]
    {
      closed := closed + [p];
    }

    /** Lines 329-343 and 369-386: the answer to a request that is off its list. */
    method Finish(p: Para)
      modifies this`closed, this`freed, this`freePara
      ensures closed == old(closed) + if p.timeout then [] else [p]
      ensures freed == old(freed) + [p]
    {
      if !p.timeout {
        CloseSource(p);
      }
      FreePara(p);
    }
  }

  class List {
    var items: seq<Para>

    constructor ()
      ensures items == []
    {
      items := [];
    }

    method Push(p: Para)
      modifies this
      ensures items == old(items) + [p]
    {
      items := items + [p];
    }

    /** `del`: 0 and the first occurrence gone, or -1. */
    method Del(p: Para) returns (ret: int)
      modifies this
      ensures ret == if p in old(items) then 0 else -1
      ensures items == Without(old(items), p)
    {
      hide Without;
      ret := -1;
      var i := 0;
      assert items[..0] + Without(items[0..], p) == Without(items, p) by { assert items[0..] == items; }
      while i < |items|
        invariant 0 <= i <= |items| && items == old(items) && p !in items[..i] && ret == -1
        invariant Without(items, p) == items[..i] + Without(items[i..], p)
      {
        WithoutFrom(items, i, p);
        if p == items[i] {
          items := items[..i] + items[i + 1..];
          return 0;
        }
        i := i + 1;
      }
      WithoutFrom(items, i, p);
      assert items[..i] == items;
    }

    /** `pop`: the front, or null. */
    method Pop() returns (p: Para?)
      modifies this
      ensures old(items) == [] ==> p == null && items == []
      ensures old(items) != [] ==> p == old(items[0]) && items == old(items[1..])
    {
      if items == [] {
        return null;
      }
      p := items[0];
      items := items[1..];
    }

    /** `check`: marks the requests whose life is over until the first that still has time. */
    method Check(adapter: Adapter, over: seq<bool>) returns (count: nat)
      requires NoDup(items) && |over| == |items|
      modifies adapter`closed, items
      ensures count == Reached(old(Flags(items)), over)
      ensures forall i :: 0 <= i < |items| ==> items[i].timeout == (i < count || old(items[i].timeout))
      ensures adapter.closed == old(adapter.closed) + InTime(items[..count], old(Flags(items))[..count])
    {
      hide InTime, Reached;
      InTimeNone(items, Flags(items));
      ghost var was := Flags(items);
      count := 0;
      var i := 0;
      while i < |items|
        invariant i == count <= |items|
        invariant forall j :: 0 <= j < i ==> items[j].timeout && (was[j] || over[j])
        invariant forall j :: i <= j < |items| ==> items[j].timeout == was[j]
        invariant adapter.closed == old(adapter.closed) + InTime(items[..i], was[..i])
      {
        var p := items[i];
        InTimeStep(items, was, i);
        if p.timeout {
          count := count + 1;
        } else if over[i] {
          count := count + 1;
          p.timeout := true;
          adapter.CloseSource(p);
        } else {
          break;
        }
        i := i + 1;
      }
      ReachedAt(was, over, count);
    }

    /** `clear`: closes what is still in time, gives up every block, and empties the list; the bid
        session is set idle once for each. */
    method Clear(adapter: Adapter) returns (idles: nat)
      requires NoDup(items)
      modifies this, items, adapter`closed, adapter`freed, adapter`freePara
      ensures items == [] && idles == |old(items)|
      ensures adapter.freed == old(adapter.freed) + old(items)
      ensures adapter.closed == old(adapter.closed) + InTime(old(items), old(Flags(items)))
      ensures forall i :: 0 <= i < |old(items)| ==> old(items)[i].timeout
    {
      hide InTime;
      ghost var all, was := items, Flags(items);
      InTimeNone(all, was);
      idles := 0;
      var i := 0;
      while i < |items|
        invariant 0 <= i == idles <= |all| && items == all
        invariant forall j :: 0 <= j < i ==> all[j].timeout
        invariant forall j :: i <= j < |all| ==> all[j].timeout == was[j]
        invariant adapter.freed == old(adapter.freed) + all[..i]
        invariant adapter.closed == old(adapter.closed) + InTime(all[..i], was[..i])
      {
        Append(old(adapter.freed), old(adapter.closed), all, was, i);
        ClearOne(adapter, items[i]);
        idles := idles + 1;
        i := i + 1;
      }
      assert all[..i] == all && was[..i] == was;
      items := [];
    }

    /** What `clear` does to one request. */
    method ClearOne(adapter: Adapter, p: Para)
      modifies p, adapter`closed, adapter`freed, adapter`freePara
      ensures p.timeout && adapter.freed == old(adapter.freed) + [p]
      ensures adapter.closed == old(adapter.closed) + if old(p.timeout) then [] else [p]
    {
      if !p.timeout {
        p.timeout := true;
        adapter.CloseSource(p);
      }
      adapter.FreePara(p);
    }

    /** Lines 360-392: the front is taken off first, whatever the length of the packet turns out to be.
        `all` is what the list held before the loop, and `n` requests are answered. */
    method TakeAnswer(adapter: Adapter, iLen: int, ghost all: seq<Para>, ghost n: nat) returns (ok: bool)
      requires n <= |all| && items == all[n..]
      modifies this, adapter`closed, adapter`freed, adapter`freePara
      ensures ok <==> n < |all| && iLen > 0
      ensures items == if n < |all| then all[n + 1..] else []
      ensures ok ==> adapter.freed == old(adapter.freed) + [all[n]]
      ensures ok ==> adapter.closed == old(adapter.closed) + if all[n].timeout then [] else [all[n]]
      ensures !ok ==> unchanged(adapter)
    {
      var p := Pop();
      if p != null && iLen > 0 {
        adapter.Finish(p);
        return true;
      }
      return false;
    }

    /** The loop over a remote engine's buffer of `size` bytes, where `lens` are the packet lengths
        read one after the other: one request is taken off before each length is looked at. */
    method Drain(adapter: Adapter, lens: seq<int>, size: int)
      requires |lens| > |items|
      modifies this, adapter`closed, adapter`freed, adapter`freePara
      ensures var n, d := Answered(|old(items)|, lens, 0, size), Dropped(|old(items)|, lens, 0, size);
        && n + d <= |old(items)| && items == old(items)[n + d..]
        && adapter.freed == old(adapter.freed) + old(items)[..n]
        && adapter.closed == old(adapter.closed) + InTime(old(items)[..n], old(Flags(items))[..n])
      ensures forall k :: 0 <= k < |old(items)| ==>
        (k < |adapter.freed| - |old(adapter.freed)| <==> lens[k] > 0 && Reaches(k, lens, size))
      ensures |items| + |adapter.freed| == |old(items)| + |old(adapter.freed)|
        - if exists k :: 0 <= k < |old(items)| && Stumbles(k, lens, size) then 1 else 0
    {
      DropsExactly(|items|, lens, size);
      AnswersExactly(|items|, lens, size);
      DroppedOne(|items|, lens, 0, size);
      hide Answered, Dropped, InTime, Stumbles, Reaches;
      DrainBuffer(adapter, lens, size);
    }

    method DrainBuffer(adapter: Adapter, lens: seq<int>, size: int)
      requires |lens| > |items|
      modifies this, adapter`closed, adapter`freed, adapter`freePara
      ensures var n, d := Answered(|old(items)|, lens, 0, size), Dropped(|old(items)|, lens, 0, size);
        && n + d <= |old(items)| && items == old(items)[n + d..]
        && adapter.freed == old(adapter.freed) + old(items)[..n]
        && adapter.closed == old(adapter.closed) + InTime(old(items)[..n], old(Flags(items))[..n])
    {
      hide InTime;
      ghost var all, was := items, Flags(items);
      var n, offset := 0, 0;
      InTimeNone(all, was);
      AnsweredBound(|all|, lens, 0, size);
      while true
        invariant n <= |all| && items == all[n..]
        invariant forall j :: 0 <= j < |all| ==> all[j].timeout == was[j]
        invariant Answered(|all|, lens, 0, size) == n + Answered(|all| - n, lens[n..], offset, size)
        invariant Dropped(|all|, lens, 0, size) == Dropped(|all| - n, lens[n..], offset, size)
        invariant adapter.freed == old(adapter.freed) + all[..n]
        invariant adapter.closed == old(adapter.closed) + InTime(all[..n], was[..n])
        decreases |all| - n
      {
        var iLen := lens[n];
        assert lens[n..][0] == iLen && lens[n..][1..] == lens[n + 1..];
        var ok := TakeAnswer(adapter, iLen, all, n);
        if !ok {
          break;
        }
        Append(old(adapter.freed), old(adapter.closed), all, was, n);
        offset := offset + iLen;
        n := n + 1;
        if !(offset < size) {
          break;
        }
      }
    }
  }

  lemma Append(freed: seq<Para>, closed: seq<Para>, all: seq<Para>, was: seq<bool>, n: nat)
    requires n < |all| == |was|
    ensures freed + all[..n] + [all[n]] == freed + all[..n + 1]
    ensures closed + InTime(all[..n], was[..n]) + (if was[n] then [] else [all[n]])
      == closed + InTime(all[..n + 1], was[..n + 1])
  {
    InTimeStep(all, was, n);
    assert all[..n + 1] == all[..n] + [all[n]];
  }

  /** How many of `n` waiting requests a buffer answers from offset `o` on. */
  ghost function Answered(n: nat, lens: seq<int>, o: int, size: int): nat
    requires |lens| > n
  {
    if n == 0 || lens[0] <= 0 then 0
    else if o + lens[0] < size then 1 + Answered(n - 1, lens[1..], o + lens[0], size)
    else 1
  }

  /** 1 if a request is taken off and forgotten. */
  ghost function Dropped(n: nat, lens: seq<int>, o: int, size: int): nat
    requires |lens| > n
  {
    if n == 0 then 0
    else if lens[0] <= 0 then 1
    else if o + lens[0] < size then Dropped(n - 1, lens[1..], o + lens[0], size)
    else 0
  }

  lemma {:induction false} AnsweredBound(n: nat, lens: seq<int>, o: int, size: int)
    requires |lens| > n
    ensures Answered(n, lens, o, size) + Dropped(n, lens, o, size) <= n
  {
    if n > 0 && lens[0] > 0 && o + lens[0] < size {
      AnsweredBound(n - 1, lens[1..], o + lens[0], size);
    }
  }

  lemma {:induction false} DroppedOne(n: nat, lens: seq<int>, o: int, size: int)
    requires |lens| > n
    ensures Dropped(n, lens, o, size) <= 1
  {
    if n > 0 && lens[0] > 0 && o + lens[0] < size {
      DroppedOne(n - 1, lens[1..], o + lens[0], size);
    }
  }

  ghost function Sum(lens: seq<int>): int {
    if lens == [] then 0 else Sum(lens[..|lens| - 1]) + lens[|lens| - 1]
  }

  /** The loop goes on after the `i`-th packet. */
  ghost predicate Passes(i: nat, lens: seq<int>, size: int)
    requires i < |lens|
  {
    lens[i] > 0 && Sum(lens[..i + 1]) < size
  }

  /** The loop comes to the `j`-th packet. */
  ghost predicate Reaches(j: nat, lens: seq<int>, size: int)
    requires j < |lens|
  {
    forall i :: 0 <= i < j ==> Passes(i, lens, size)
  }

  /** The loop comes to the `j`-th packet and finds a length that is not positive. */
  ghost predicate Stumbles(j: nat, lens: seq<int>, size: int)
    requires j < |lens|
  {
    Reaches(j, lens, size) && lens[j] <= 0
  }

  /** A waiting request is answered exactly if the loop comes to its packet and that has a positive length, also if it
      is the packet that fills the buffer. */
  lemma AnswersExactly(n: nat, lens: seq<int>, size: int)
    requires |lens| > n
    ensures forall k :: 0 <= k < n ==> (k < Answered(n, lens, 0, size) <==> lens[k] > 0 && Reaches(k, lens, size))
  {
    assert lens[0..] == lens;
    forall k | 0 <= k < n ensures k < Answered(n, lens, 0, size) <==> lens[k] > 0 && Reaches(k, lens, size) {
      AnswersFrom(n, 0, k, lens, size);
    }
  }

  lemma {:induction false} AnswersFrom(n: nat, m: nat, k: nat, lens: seq<int>, size: int)
    requires m <= k < n < |lens| && Reaches(m, lens, size)
    ensures k - m < Answered(n - m, lens[m..], Sum(lens[..m]), size) <==> lens[k] > 0 && Reaches(k, lens, size)
    decreases n - m
  {
    assert lens[..m + 1][..m] == lens[..m] && lens[m..][1..] == lens[m + 1..];
    if m < k {
      if Passes(m, lens, size) {
        AnswersFrom(n, m + 1, k, lens, size);
      }
    }
  }

  /** A request is lost exactly if the loop comes, while one is waiting, to a packet whose length is not positive. */
  lemma DropsExactly(n: nat, lens: seq<int>, size: int)
    requires |lens| > n
    ensures Dropped(n, lens, 0, size) == 1 <==> exists j :: 0 <= j < n && Stumbles(j, lens, size)
  {
    DropsFrom(n, 0, lens, size);
    assert lens[0..] == lens;
  }

  /** One request is waiting and the first packet's length is -1, as it is for a wrong flag byte: the request is
      lost. */
  lemma LossExample(size: int)
    ensures Answered(1, [-1, 0], 0, size) == 0 && Dropped(1, [-1, 0], 0, size) == 1
  {
  }

  lemma {:induction false} DropsFrom(n: nat, k: nat, lens: seq<int>, size: int)
    requires k <= n < |lens| && forall i :: 0 <= i < k ==> Passes(i, lens, size)
    ensures Dropped(n - k, lens[k..], Sum(lens[..k]), size) == 1 <==> exists j :: k <= j < n && Stumbles(j, lens, size)
    decreases n - k
  {
    assert lens[..k + 1][..k] == lens[..k] && lens[k..][1..] == lens[k + 1..];
    if k < n {
      if Passes(k, lens, size) {
        DropsFrom(n, k + 1, lens, size);
      } else if lens[k] <= 0 {
        assert Stumbles(k, lens, size);
      }
    }
  }
}
