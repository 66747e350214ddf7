/** What the critical sections of the in-flight list do to its requests is what runs of single steps do. */
module Refinement {
  import opened Seqs
  import opened Lifecycle
  import opened ParaList

  /** The time-out marks along a list. */
  ghost function Marks(s: State, items: seq<Block>): (f: seq<bool>)
    requires forall b :: b in items ==> b in s.live
    ensures |f| == |items| && forall i :: 0 <= i < |f| ==> f[i] == s.live[items[i]].timeout
  {
    seq(|items|, i requires 0 <= i < |items| => s.live[items[i]].timeout)
  }

  lemma {:induction false} ReachedPasses(flags: seq<bool>, over: seq<bool>, k: nat)
    requires |flags| == |over| && k <= |flags| && forall i :: 0 <= i < k ==> flags[i]
    ensures k <= Reached(flags, over)
  {
    if k > 0 { ReachedPasses(flags[1..], over[1..], k - 1); }
  }

  /** Behind marks that are all in front the unmarked ones are a slice. */
  lemma {:induction false} InTimeSlice<T>(items: seq<T>, flags: seq<bool>, k: nat, n: nat)
    requires |items| == |flags| && k <= n <= |items|
    requires forall i :: 0 <= i < n ==> (flags[i] <==> i < k)
    ensures InTime(items[..n], flags[..n]) == items[k..n]
  {
    hide InTime;
    if n == 0 {
      InTimeNone(items, flags);
    } else {
      InTimeSlice(items, flags, if k < n then k else k - 1, n - 1);
      InTimeStep(items, flags, n - 1);
      assert k < n ==> items[k..n] == items[k..n - 1] + [items[n - 1]];
      assert k == n ==> items[k - 1..n - 1] == [] == items[k..n];
    }
  }

  /** `ParaList.List.Check` does what a run of expiries does: it marks the same requests and closes the same sources
      in the same order. */
  lemma CheckRefines(s: State, x: Session, over: seq<bool>) returns (ls: seq<Label>, t: State)
    requires Inv(s) && x in s.bids && !s.bids[x].closing && |over| == |s.bids[x].items|
    requires forall b :: b in s.bids[x].items ==> b in s.live
    ensures Runs(s, ls, t) && Inv(t) && t.bids == s.bids && forall b :: b in s.bids[x].items ==> b in t.live
    ensures var items, flags := s.bids[x].items, Marks(s, s.bids[x].items);
      var n := Reached(flags, over);
      && (forall i :: 0 <= i < |items| ==> Marks(t, items)[i] == (i < n || flags[i]))
      && Closings(s, ls) == InTime(items[..n], flags[..n])
  {
    var items := s.bids[x].items;
    var flags, c := Marks(s, items), LateCount(s, items);
    LateNow(s, x);
    ReachedPasses(flags, over, c);
    var n := Reached(flags, over);
    InTimeSlice(items, flags, c, n);
    ls, t := CheckIsRun(s, x, n);
  }

  lemma {:induction false} StillOpenIs(s: State, items: seq<Block>)
    requires forall b :: b in items ==> b in s.live
    ensures StillOpen(s, items) == InTime(items, Marks(s, items))
  {
    if items != [] {
      var m := |items| - 1;
      StillOpenSnoc(s, items[..m], items[m]);
      assert items[..m] + [items[m]] == items && Marks(s, items)[..m] == Marks(s, items[..m]);
      StillOpenIs(s, items[..m]);
    }
  }

  lemma {:induction false} StillOpenSnoc(s: State, items: seq<Block>, b: Block)
    requires b in s.live && forall c :: c in items ==> c in s.live
    ensures StillOpen(s, items + [b]) == StillOpen(s, items) + if s.live[b].timeout then [] else [b]
  {
    if items == [] {
      assert items + [b] == [b] && [b][1..] == [];
    } else {
      assert (items + [b])[1..] == items[1..] + [b];
      StillOpenSnoc(s, items[1..], b);
    }
  }

  /** `ParaList.List.Clear` does what the run that tears a session down does: it gives back the same blocks and closes
      the same sources in the same order. */
  lemma ClearRefines(s: State, x: Session) returns (ls: seq<Label>, t: State)
    requires Inv(s) && x in s.bids && s.bids[x].closing
    ensures Runs(s, ls, t) && Inv(t) && t.bids == s.bids - {x} && forall b :: b in s.bids[x].items ==> b in s.live
    ensures Freeings(s, ls) == s.bids[x].items
    ensures Closings(s, ls) == InTime(s.bids[x].items, Marks(s, s.bids[x].items))
  {
    ls, t := ClearIsRun(s, x);
    StillOpenIs(s, s.bids[x].items);
  }

  /** `ParaList.List.Del` finds a block exactly if its response can be taken, and leaves the list as that step does. */
  lemma DelRefines(s: State, x: Session, b: Block)
    requires Inv(s) && x in s.bids && !s.bids[x].remote && !s.bids[x].closing
    ensures b in s.bids[x].items <==> Enabled(s, Take(x, b))
    ensures b in s.bids[x].items ==> Step(s, Take(x, b)).bids[x].items == Without(s.bids[x].items, b)
    ensures b !in s.bids[x].items ==> s.bids[x].items == Without(s.bids[x].items, b)
  {
    ListedKnown(s, x);
    if b !in s.bids[x].items { WithoutNone(s.bids[x].items, b); }
  }

  lemma {:induction false} WithoutNone<T>(items: seq<T>, x: T)
    requires x !in items
    ensures Without(items, x) == items
  {
    if items != [] {
      assert items == [items[0]] + items[1..];
      WithoutNone(items[1..], x);
    }
  }
}
