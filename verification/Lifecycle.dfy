/** The life of a bid request in the adapter, as a system of steps that threads may
    interleave in any order. A parameter block carries the request from `Run` through a
    bid session's in-flight list to `FreePara`.  */
module Lifecycle {
  import opened Seqs

  type Session = nat
  type Block = nat
  type Request = nat

  // The ring of 4096 * 400 cells holds one block less.
  const POOL_CAPACITY: nat := 4096 * 400 - 1

  /** Where a block in use is: with the thread that runs `Run`, in a bid session's list, with the
      thread that took it off that list, which goes through the next three in order, or taken off
      for a packet without a valid length and forgotten. */
  datatype Place = Opened | Listed(bid: Session) | Taken(bid: Session) | Answering | Done | Lost(bid: Session)

  /** What a block holds while a request uses it. */
  datatype Para = Para(req: Request, src: Session, timeout: bool, place: Place)

  /** The block a request was given, and how often its source was closed and written and the block freed. */
  datatype Track = Track(block: Block, closes: nat, writes: nat, frees: nat)

  /** A bid session. `sent` and `popped` are the requests in the order they went out to a remote
      engine and were taken off by its responses. */
  datatype Bid = Bid(remote: bool, items: seq<Block>, closing: bool, sent: seq<Request>, popped: seq<Request>)

  datatype State = State(
    pool: seq<Block>, next: Block, live: map<Block, Para>,
    bids: map<Session, Bid>, active: map<Session, nat>, tracks: seq<Track>)

  function Active(s: State, x: Session): nat {
    if x in s.active then s.active[x] else 0
  }

  function Raise(s: State, x: Session): State {
    s.(active := s.active[x := Active(s, x) + 1])
  }

  /** `AdSessionIdle` stops at zero. */
  function Lower(s: State, x: Session): State {
    s.(active := s.active[x := if Active(s, x) > 0 then Active(s, x) - 1 else 0])
  }

  /** A block whose request is known to the history. */
  predicate Known(s: State, b: Block) {
    b in s.live && s.live[b].req < |s.tracks|
  }

  /** The source session of the request in `b` is written if `wrote`, and closed. */
  function Close(s: State, b: Block, wrote: bool): State
    requires Known(s, b)
  {
    var r := s.live[b].req;
    var t := s.tracks[r];
    var w := if wrote then t.writes + 1 else t.writes;
    Lower(s, s.live[b].src).(tracks := s.tracks[r := t.(closes := t.closes + 1, writes := w)])
  }

  function Move(s: State, b: Block, place: Place): State
    requires b in s.live
  {
    s.(live := s.live[b := s.live[b].(place := place)])
  }

  /** `FreePara`: back to the pool, or deleted when that is full. */
  function Release(s: State, b: Block): State
    requires Known(s, b)
  {
    var r := s.live[b].req;
    s.(pool := if |s.pool| < POOL_CAPACITY then s.pool + [b] else s.pool,
       live := s.live - {b},
       tracks := s.tracks[r := s.tracks[r].(frees := s.tracks[r].frees + 1)])
  }

  /** Where the list's requests stop being timed out. */
  function LateCount(s: State, items: seq<Block>): (k: nat)
    requires forall b :: b in items ==> b in s.live
    ensures k <= |items| && (k < |items| ==> !s.live[items[k]].timeout)
    ensures forall i :: 0 <= i < k ==> s.live[items[i]].timeout
  {
    if items == [] || !s.live[items[0]].timeout then 0 else 1 + LateCount(s, items[1..])
  }

  // ---------- the invariant ----------

  predicate Open(p: Para) {
    p.place == Opened || (p.place != Done && !p.timeout)
  }

  ghost predicate BlockPlaced(s: State, b: Block)
    requires b in s.live
  {
    s.live[b].place.Listed? ==> s.live[b].place.bid in s.bids && b in s.bids[s.live[b].place.bid].items
  }

  ghost predicate BidPlaced(s: State, x: Session)
    requires x in s.bids
  {
    NoDup(s.bids[x].items) && forall b :: b in s.bids[x].items ==> b in s.live && s.live[b].place == Listed(x)
  }

  /** Free blocks are not in use, and listed blocks know the list they are in. */
  ghost predicate Lists(s: State) {
    && NoDup(s.pool) && (forall b :: b in s.pool ==> b < s.next && b !in s.live)
    && (forall b :: b in s.live ==> b < s.next)
    && (forall x {:trigger BidPlaced(s, x)} :: x in s.bids ==> BidPlaced(s, x))
  }

  /** Every block is in one place only. */
  ghost predicate Placed(s: State) {
    Lists(s) && forall b {:trigger BlockPlaced(s, b)} :: b in s.live ==> BlockPlaced(s, b)
  }

  predicate TrackOf(t: Track, p: Para) {
    && t.frees == 0 && t.closes == (if Open(p) then 0 else 1) && t.writes <= t.closes
    && (p.place == Opened ==> !p.timeout)
  }

  /** A live block is that of its request, whose history fits. */
  ghost predicate BlockTracked(s: State, b: Block)
    requires b in s.live
  {
    var p := s.live[b];
    p.req < |s.tracks| && s.tracks[p.req].block == b && TrackOf(s.tracks[p.req], p)
  }

  /** A request is either live or over: closed once, written at most once, its block freed once. */
  ghost predicate RequestTracked(s: State, r: Request)
    requires r < |s.tracks|
  {
    var t := s.tracks[r];
    if t.frees == 0 then t.block in s.live && s.live[t.block].req == r
    else t.closes == 1 && t.writes <= 1 && t.frees == 1
  }

  /** Every request's history agrees with where its block is. */
  ghost predicate Tracked(s: State) {
    && (forall b {:trigger BlockTracked(s, b)} :: b in s.live ==> BlockTracked(s, b))
    && (forall r {:trigger RequestTracked(s, r)} :: 0 <= r < |s.tracks| ==> RequestTracked(s, r))
  }

  ghost function OpenFrom(s: State, x: Session): set<Block> {
    set b | b in s.live && Open(s.live[b]) && s.live[b].src == x
  }

  ghost function TakenFrom(s: State, x: Session): set<Block> {
    set b | b in s.live && s.live[b].place == Taken(x)
  }

  ghost function LostFrom(s: State, x: Session): set<Block> {
    set b | b in s.live && s.live[b].place == Lost(x)
  }

  ghost function Due(s: State, x: Session): nat {
    |OpenFrom(s, x)| + |TakenFrom(s, x)| + |LostFrom(s, x)| + if x in s.bids then 1 + |s.bids[x].items| else 0
  }

  /** Every session is held once for each request it waits for. */
  ghost predicate Counted(s: State) {
    forall x :: Active(s, x) == Due(s, x)
  }

  ghost predicate LatePrefix(s: State, items: seq<Block>) {
    forall i, j :: 0 <= i < j < |items| && {items[i], items[j]} <= s.live.Keys && s.live[items[j]].timeout ==>
      s.live[items[i]].timeout
  }

  /** In every list the timed-out requests come first. */
  ghost predicate LateFirst(s: State) {
    forall x :: x in s.bids ==> LatePrefix(s, s.bids[x].items)
  }

  ghost predicate Paired1(s: State, d: Bid) {
    && |d.sent| == |d.popped| + |d.items| && d.popped == d.sent[..|d.popped|]
    && (forall i :: 0 <= i < |d.items| ==> d.items[i] in s.live && s.live[d.items[i]].req == d.sent[|d.popped| + i])
  }

  /** On a remote session the responses so far took off the requests in the order sent. */
  ghost predicate Paired(s: State) {
    forall x :: x in s.bids && s.bids[x].remote && !s.bids[x].closing ==> Paired1(s, s.bids[x])
  }

  ghost predicate Inv(s: State) {
    Placed(s) && Tracked(s) && Counted(s) && LateFirst(s) && Paired(s)
  }

  // ---------- the steps ----------

  datatype Label =
    | Register(bid: Session, remote: bool)
    | Accept(src: Session)
    | Reject(b: Block, wrote: bool)
    | Dispatch(b: Block, bid: Session)
    | Expire(bid: Session, wrote: bool)
    | Take(bid: Session, b: Block)
    | Pop(bid: Session)
    | Drop(bid: Session)
    | IdleBid(b: Block)
    | Answer(b: Block, wrote: bool)
    | Free(b: Block)
    | BeginTeardown(bid: Session)
    | ClearFront(bid: Session, wrote: bool)
    | Unregister(bid: Session)

  predicate Enabled(s: State, l: Label) {
    match l
    case Register(bid, remote) => bid !in s.bids
    case Accept(src) => true
    case Reject(b, wrote) => Known(s, b) && s.live[b].place == Opened
    case Dispatch(b, bid) => Known(s, b) && s.live[b].place == Opened && bid in s.bids
    case Expire(bid, wrote) =>
      && bid in s.bids && !s.bids[bid].closing
      && (forall b :: b in s.bids[bid].items ==> Known(s, b))
      && LateCount(s, s.bids[bid].items) < |s.bids[bid].items|
    case Take(bid, b) => bid in s.bids && !s.bids[bid].remote && !s.bids[bid].closing && b in s.bids[bid].items
      && Known(s, b)
    case Pop(bid) => bid in s.bids && s.bids[bid].remote && !s.bids[bid].closing && s.bids[bid].items != []
      && Known(s, s.bids[bid].items[0])
    case Drop(bid) => bid in s.bids && s.bids[bid].remote && !s.bids[bid].closing && s.bids[bid].items != []
      && Known(s, s.bids[bid].items[0])
    case IdleBid(b) => Known(s, b) && s.live[b].place.Taken?
    case Answer(b, wrote) => Known(s, b) && s.live[b].place == Answering
    case Free(b) => Known(s, b) && s.live[b].place == Done
    case BeginTeardown(bid) => bid in s.bids
    case ClearFront(bid, wrote) => bid in s.bids && s.bids[bid].closing && s.bids[bid].items != []
      && Known(s, s.bids[bid].items[0])
    case Unregister(bid) => bid in s.bids && s.bids[bid].closing && s.bids[bid].items == []
  }

  function SetBid(s: State, x: Session, d: Bid): State {
    s.(bids := s.bids[x := d])
  }

  function Step(s: State, l: Label): State
    requires Enabled(s, l)
  {
    match l
    case Register(bid, remote) => Raise(SetBid(s, bid, Bid(remote, [], false, [], [])), bid)
    case Accept(src) =>
      var b := if s.pool != [] then s.pool[0] else s.next;
      Raise(s.(pool := if s.pool != [] then s.pool[1..] else [],
               next := if s.pool != [] then s.next else s.next + 1,
               live := s.live[b := Para(|s.tracks|, src, false, Opened)],
               tracks := s.tracks + [Track(b, 0, 0, 0)]), src)
    case Reject(b, wrote) => Move(Close(s, b, wrote), b, Done)
    case Dispatch(b, bid) =>
      var d := s.bids[bid];
      SetBid(Move(Raise(s, bid), b, Listed(bid)), bid, d.(items := d.items + [b], sent := d.sent + [s.live[b].req]))
    case Expire(bid, wrote) =>
      var b := s.bids[bid].items[LateCount(s, s.bids[bid].items)];
      Close(s, b, wrote).(live := s.live[b := s.live[b].(timeout := true)])
    case Take(bid, b) =>
      SetBid(Move(s, b, Taken(bid)), bid, s.bids[bid].(items := Without(s.bids[bid].items, b)))
    case Pop(bid) =>
      var d := s.bids[bid];
      var b := d.items[0];
      SetBid(Move(s, b, Taken(bid)), bid, d.(items := d.items[1..], popped := d.popped + [s.live[b].req]))
    case Drop(bid) =>
      var d := s.bids[bid];
      var b := d.items[0];
      SetBid(Move(s, b, Lost(bid)), bid, d.(items := d.items[1..], popped := d.popped + [s.live[b].req]))
    case IdleBid(b) => Move(Lower(s, s.live[b].place.bid), b, Answering)
    case Answer(b, wrote) => Move(if s.live[b].timeout then s else Close(s, b, wrote), b, Done)
    case Free(b) => Release(s, b)
    case BeginTeardown(bid) => SetBid(s, bid, s.bids[bid].(closing := true))
    case ClearFront(bid, wrote) =>
      var d := s.bids[bid];
      var b := d.items[0];
      var s' := if s.live[b].timeout then s else Close(s, b, wrote);
      Lower(SetBid(Release(s', b), bid, d.(items := d.items[1..])), bid)
    case Unregister(bid) => Lower(s.(bids := s.bids - {bid}), bid)
  }

  // ---------- every step keeps the invariant ----------

  /** Nothing but block `b` and its request changes. */
  ghost predicate OnlyBlock(s: State, s': State, b: Block) {
    && (forall c :: c != b ==> (c in s'.live <==> c in s.live))
    && (forall c :: c != b && c in s.live ==> s'.live[c] == s.live[c])
  }

  lemma TrackedLocal(s: State, s': State, b: Block)
    requires Tracked(s) && b in s.live && OnlyBlock(s, s', b) && |s'.tracks| == |s.tracks|
    requires forall q :: 0 <= q < |s.tracks| && q != s.live[b].req ==> s'.tracks[q] == s.tracks[q]
    requires b in s'.live ==> s'.live[b].req == s.live[b].req && BlockTracked(s', b)
    requires s.live[b].req < |s.tracks| && RequestTracked(s', s.live[b].req)
    ensures Tracked(s')
  {
    assert BlockTracked(s, b);
    forall c | c in s'.live ensures BlockTracked(s', c) {
      if c != b { assert BlockTracked(s, c); }
    }
    forall r | 0 <= r < |s'.tracks| ensures RequestTracked(s', r) {
      if r != s.live[b].req { assert RequestTracked(s, r); }
    }
  }

  /** The block a step is about; 0 if it is about none. */
  function Subject(s: State, l: Label): Block
    requires Enabled(s, l)
  {
    match l
    case Reject(b, _) => b
    case Dispatch(b, _) => b
    case Expire(bid, _) => s.bids[bid].items[LateCount(s, s.bids[bid].items)]
    case Take(_, b) => b
    case Pop(bid) => s.bids[bid].items[0]
    case Drop(bid) => s.bids[bid].items[0]
    case IdleBid(b) => b
    case Answer(b, _) => b
    case Free(b) => b
    case ClearFront(bid, _) => s.bids[bid].items[0]
    case _ => 0
  }

  predicate HasSubject(l: Label) {
    !l.Register? && !l.Accept? && !l.BeginTeardown? && !l.Unregister?
  }

  lemma SubjectPlaced(s: State, l: Label)
    requires Lists(s) && Tracked(s) && Enabled(s, l) && HasSubject(l)
    ensures var b := Subject(s, l);
      && b in s.live && BlockTracked(s, b) && RequestTracked(s, s.live[b].req)
      && (l.Expire? || l.Take? || l.Pop? || l.Drop? || l.ClearFront? ==> s.live[b].place == Listed(l.bid))
      && (l.Expire? ==> !s.live[b].timeout)
  {
    if l.Expire? || l.Take? || l.Pop? || l.Drop? || l.ClearFront? { assert BidPlaced(s, l.bid); }
    var b := Subject(s, l);
    assert BlockTracked(s, b);
    assert RequestTracked(s, s.live[b].req);
  }

  /** `AllocPara`: the block handed out is not in use, so in no list either. */
  function NextBlock(s: State): Block {
    if s.pool != [] then s.pool[0] else s.next
  }

  lemma NextBlockUnused(s: State)
    requires Lists(s)
    ensures NextBlock(s) !in s.live
    ensures forall x :: x in s.bids ==> NextBlock(s) !in s.bids[x].items
  {
    var b := NextBlock(s);
    forall x | x in s.bids ensures b !in s.bids[x].items { assert BidPlaced(s, x); }
  }

  lemma TrackedSubject(s: State, l: Label)
    requires Lists(s) && Tracked(s) && Enabled(s, l) && HasSubject(l)
    ensures Tracked(Step(s, l))
  {
    SubjectPlaced(s, l);
    TrackedLocal(s, Step(s, l), Subject(s, l));
  }

  lemma TrackedKept(s: State, l: Label)
    requires Lists(s) && Tracked(s) && Enabled(s, l)
    ensures Tracked(Step(s, l))
  {
    if HasSubject(l) {
      TrackedSubject(s, l);
    } else {
      var s' := Step(s, l);
      NextBlockUnused(s);
      forall c | c in s'.live ensures BlockTracked(s', c) { assert c in s.live ==> BlockTracked(s, c); }
      forall r | 0 <= r < |s'.tracks| ensures RequestTracked(s', r) { assert r < |s.tracks| ==> RequestTracked(s, r); }
    }
  }

  // ---------- places ----------

  lemma ReleasedPool(s: State, b: Block)
    requires Lists(s) && Known(s, b)
    ensures var s' := Release(s, b); NoDup(s'.pool) && forall c :: c in s'.pool ==> c < s'.next && c !in s'.live
  {
    assert b < s.next;
  }

  /** Steps that change the list of a bid session. */
  predicate OnList(l: Label) {
    l.Dispatch? || l.Take? || l.Pop? || l.Drop? || l.ClearFront?
  }

  /** A step on a list changes its own block and its own list only. */
  lemma OnListKept(s: State, l: Label)
    requires Lists(s) && Tracked(s) && Enabled(s, l) && OnList(l)
    ensures OnlyBlock(s, Step(s, l), Subject(s, l)) && Step(s, l).next == s.next
    ensures forall y :: y != l.bid ==> (y in Step(s, l).bids <==> y in s.bids)
    ensures forall y :: y != l.bid && y in s.bids ==> Step(s, l).bids[y] == s.bids[y]
    ensures l.bid in s.bids && l.bid in Step(s, l).bids
  {
    hide BlockTracked, RequestTracked, BidPlaced, Without;
  }

  lemma OwnListPlaced(s: State, l: Label)
    requires Lists(s) && Tracked(s) && Enabled(s, l) && OnList(l)
    ensures l.bid in Step(s, l).bids && BidPlaced(Step(s, l), l.bid)
    ensures forall c :: c != Subject(s, l) && c in s.bids[l.bid].items ==> c in Step(s, l).bids[l.bid].items
    ensures forall c :: c in Step(s, l).bids[l.bid].items ==> c in s.bids[l.bid].items || (l.Dispatch? && c == l.b)
  {
    hide BlockTracked, RequestTracked, Without, NoDup;
    SubjectPlaced(s, l);
    assert BidPlaced(s, l.bid);
    var items := s.bids[l.bid].items;
    if l.Take? {
      WithoutIs(items, l.b);
    } else if l.Dispatch? {
      NoDupSnoc(items, l.b);
    } else {
      FrontOff(items);
    }
  }

  lemma FrontOff(items: seq<Block>)
    requires NoDup(items) && items != []
    ensures NoDup(items[1..]) && forall b :: b in items[1..] <==> b in items && b != items[0]
  {
    var r := items[1..];
    assert items == [items[0]] + r && forall i :: 0 <= i < |r| ==> r[i] == items[i + 1];
  }

  lemma OtherListPlaced(s: State, l: Label, y: Session)
    requires Lists(s) && Tracked(s) && Enabled(s, l) && y in s.bids && y in Step(s, l).bids
      && (OnList(l) ==> y != l.bid)
    ensures BidPlaced(Step(s, l), y)
  {
    if OnList(l) {
      OtherListOn(s, l, y);
    } else {
      OtherListOff(s, l, y);
    }
  }

  lemma OtherListOn(s: State, l: Label, y: Session)
    requires Lists(s) && Tracked(s) && Enabled(s, l) && y in s.bids && y in Step(s, l).bids && OnList(l) && y != l.bid
    ensures BidPlaced(Step(s, l), y)
  {
    hide BlockTracked, RequestTracked, Without, NoDup;
    assert BidPlaced(s, y);
    SubjectPlaced(s, l);
    OnListKept(s, l);
  }

  lemma OtherListOff(s: State, l: Label, y: Session)
    requires Lists(s) && Tracked(s) && Enabled(s, l) && y in s.bids && y in Step(s, l).bids && !OnList(l)
    ensures BidPlaced(Step(s, l), y)
  {
    hide BlockTracked, RequestTracked, Without, NoDup;
    assert BidPlaced(s, y);
    NextBlockUnused(s);
    if HasSubject(l) { SubjectPlaced(s, l); }
  }

  lemma PoolKept(s: State, l: Label)
    requires Lists(s) && Tracked(s) && Enabled(s, l)
    ensures var s' := Step(s, l);
      && NoDup(s'.pool) && (forall b :: b in s'.pool ==> b < s'.next && b !in s'.live)
      && (forall b :: b in s'.live ==> b < s'.next)
  {
    hide BlockTracked, RequestTracked, BidPlaced, Without;
    if HasSubject(l) { SubjectPlaced(s, l); }
    if l.Free? || l.ClearFront? {
      ReleasedPool(s, Subject(s, l));
    } else if l.Accept? {
      TakenPool(s.pool);
    }
  }

  /** What is left of the pool when its first block is taken. */
  lemma TakenPool(pool: seq<Block>)
    requires NoDup(pool)
    ensures pool != [] ==>
      pool[0] in pool && NoDup(pool[1..]) && forall b :: b in pool[1..] ==> b in pool && b != pool[0]
  {
    if pool != [] { FrontOff(pool); }
  }

  lemma ListsKept(s: State, l: Label)
    requires Lists(s) && Tracked(s) && Enabled(s, l)
    ensures Lists(Step(s, l))
  {
    hide BlockTracked, RequestTracked, NoDup;
    PoolKept(s, l);
    forall y | y in Step(s, l).bids ensures BidPlaced(Step(s, l), y) {
      if OnList(l) && y == l.bid {
        OwnListPlaced(s, l);
      } else if y in s.bids {
        OtherListPlaced(s, l, y);
      } else {
        NewListPlaced(s, l, y);
      }
    }
  }

  lemma NewListPlaced(s: State, l: Label, y: Session)
    requires Enabled(s, l) && y in Step(s, l).bids && y !in s.bids
    ensures BidPlaced(Step(s, l), y)
  {
  }

  lemma BlockStaysPlaced(s: State, l: Label, b: Block)
    requires Placed(s) && Tracked(s) && Enabled(s, l) && b in Step(s, l).live
    ensures BlockPlaced(Step(s, l), b)
  {
    hide RequestTracked;
    NextBlockUnused(s);
    if b in s.live { assert BlockPlaced(s, b); }
    if HasSubject(l) { SubjectPlaced(s, l); }
    if OnList(l) { OnListKept(s, l); OwnListPlaced(s, l); }
  }

  lemma PlacedKept(s: State, l: Label)
    requires Placed(s) && Tracked(s) && Enabled(s, l)
    ensures Placed(Step(s, l))
  {
    ListsKept(s, l);
    forall b | b in Step(s, l).live ensures BlockPlaced(Step(s, l), b) {
      BlockStaysPlaced(s, l, b);
    }
  }

  // ---------- lists: the timed-out first, the responses in order ----------

  /** Off the step's own list nothing a list depends on changes. */
  lemma OtherListKept(s: State, l: Label, y: Session)
    requires Lists(s) && Tracked(s) && Enabled(s, l) && y in s.bids && y in Step(s, l).bids
    requires OnList(l) || l.Expire? || l.Register? ==> y != l.bid
    ensures Step(s, l).bids[y] == s.bids[y].(closing := Step(s, l).bids[y].closing)
    ensures s.bids[y].closing ==> Step(s, l).bids[y].closing
    ensures forall b :: b in s.bids[y].items ==> b in s.live && b in Step(s, l).live && Step(s, l).live[b] == s.live[b]
  {
    hide BlockTracked, RequestTracked;
    assert BidPlaced(s, y);
    NextBlockUnused(s);
    if HasSubject(l) { SubjectPlaced(s, l); }
  }

  lemma NewList(s: State, l: Label, y: Session)
    requires Enabled(s, l) && y in Step(s, l).bids && y !in s.bids
    ensures Step(s, l).bids[y].items == [] && Step(s, l).bids[y].sent == [] && Step(s, l).bids[y].popped == []
  {
  }

  lemma LateFirstKept(s: State, l: Label)
    requires Lists(s) && Tracked(s) && LateFirst(s) && Enabled(s, l)
    ensures LateFirst(Step(s, l))
  {
    hide Step, BlockTracked, RequestTracked;
    var s' := Step(s, l);
    forall y | y in s'.bids ensures LatePrefix(s', s'.bids[y].items) {
      if y in s.bids {
        assert LatePrefix(s, s.bids[y].items) && BidPlaced(s, y);
        if (OnList(l) || l.Expire?) && y == l.bid {
          OwnListLate(s, l);
        } else if !l.Register? || y != l.bid {
          OtherListKept(s, l, y);
        }
      } else {
        NewList(s, l, y);
      }
    }
  }

  lemma LateShorter(s: State, items: seq<Block>, k: nat)
    requires LatePrefix(s, items) && k < |items|
    ensures LatePrefix(s, items[..k] + items[k + 1..])
  {
    var w := items[..k] + items[k + 1..];
    assert forall i :: 0 <= i < |w| ==> w[i] == items[if i < k then i else i + 1];
  }

  /** A list is still in order if its blocks keep their marks. */
  lemma LateSame(s: State, s': State, items: seq<Block>)
    requires LatePrefix(s, items)
    requires forall b :: b in items ==> b in s.live && b in s'.live && s'.live[b].timeout == s.live[b].timeout
    ensures LatePrefix(s', items)
  {
  }

  lemma LateWithout(s: State, s': State, items: seq<Block>, k: nat)
    requires LatePrefix(s, items) && k < |items| && NoDup(items)
    requires forall b :: b in items && b != items[k] ==> b in s.live && b in s'.live && s'.live[b] == s.live[b]
    ensures LatePrefix(s', items[..k] + items[k + 1..])
  {
    var w := items[..k] + items[k + 1..];
    LateShorter(s, items, k);
    assert forall i :: 0 <= i < |w| ==> w[i] == items[if i < k then i else i + 1] && w[i] != items[k];
    LateSame(s, s', w);
  }

  lemma OwnListLate(s: State, l: Label)
    requires Lists(s) && Tracked(s) && Enabled(s, l) && (OnList(l) || l.Expire?)
    requires LatePrefix(s, s.bids[l.bid].items)
    ensures LatePrefix(Step(s, l), Step(s, l).bids[l.bid].items)
  {
    var s', items := Step(s, l), s.bids[l.bid].items;
    SubjectPlaced(s, l);
    assert BidPlaced(s, l.bid);
    if l.Dispatch? {
      LateSame(s, s', items);
    } else if l.Expire? {
      LateMarked(s, s', items, LateCount(s, items));
    } else {
      OwnListShorter(s, l);
    }
  }

  lemma OwnListShorter(s: State, l: Label)
    requires Lists(s) && Tracked(s) && Enabled(s, l) && (l.Take? || l.Pop? || l.Drop? || l.ClearFront?)
    requires LatePrefix(s, s.bids[l.bid].items)
    ensures LatePrefix(Step(s, l), Step(s, l).bids[l.bid].items)
  {
    var s', b, items := Step(s, l), Subject(s, l), s.bids[l.bid].items;
    SubjectPlaced(s, l);
    assert BidPlaced(s, l.bid);
    var k := 0;
    if l.Take? { k := WithoutAt(items, b); }
    LateWithout(s, s', items, k);
    assert items[..0] + items[1..] == items[1..];
  }

  /** Marking the first request in time keeps the marks in front. */
  lemma LateMarked(s: State, s': State, items: seq<Block>, k: nat)
    requires NoDup(items) && k < |items| && forall i :: 0 <= i < k ==> items[i] in s.live && s.live[items[i]].timeout
    requires LatePrefix(s, items) && items[k] in s.live && !s.live[items[k]].timeout
    requires forall b :: b in items ==> b in s.live
    requires s'.live == s.live[items[k] := s.live[items[k]].(timeout := true)]
    ensures LatePrefix(s', items)
  {
  }

  lemma OwnListPaired(s: State, l: Label)
    requires Lists(s) && Tracked(s) && Enabled(s, l) && (OnList(l) || l.Expire?)
    requires Paired(s) && l.bid in Step(s, l).bids && Step(s, l).bids[l.bid].remote && !Step(s, l).bids[l.bid].closing
    ensures Paired1(Step(s, l), Step(s, l).bids[l.bid])
  {
    hide BlockTracked, RequestTracked, Without;
    SubjectPlaced(s, l);
    assert BidPlaced(s, l.bid);
    var d, d' := s.bids[l.bid], Step(s, l).bids[l.bid];
    if l.Pop? || l.Drop? {
      assert d'.popped == d.sent[..|d.popped| + 1];
    }
  }

  lemma PairedKept(s: State, l: Label)
    requires Lists(s) && Tracked(s) && Paired(s) && Enabled(s, l)
    ensures Paired(Step(s, l))
  {
    hide Step, BlockTracked, RequestTracked;
    var s' := Step(s, l);
    forall y | y in s'.bids && s'.bids[y].remote && !s'.bids[y].closing ensures Paired1(s', s'.bids[y]) {
      if y in s.bids {
        if (OnList(l) || l.Expire?) && y == l.bid {
          OwnListPaired(s, l);
        } else if !l.Register? || y != l.bid {
          OtherListKept(s, l, y);
          assert Paired1(s, s.bids[y]);
        }
      } else {
        NewList(s, l, y);
      }
    }
  }

  // ---------- session counts ----------

  function Bit(c: bool): nat {
    if c then 1 else 0
  }

  lemma SetDiffers(a: set<Block>, a': set<Block>, b: Block)
    requires forall c :: c != b ==> (c in a' <==> c in a)
    ensures |a'| == |a| + Bit(b in a') - Bit(b in a)
  {
    assert a - {b} == a' - {b};
    assert b in a ==> a == (a - {b}) + {b};
    assert b in a' ==> a' == (a' - {b}) + {b};
    assert b !in a ==> a == a - {b};
    assert b !in a' ==> a' == a' - {b};
  }

  /** What one block's change does to the sets that are counted. */
  lemma DueLocal(s: State, s': State, b: Block, x: Session)
    requires OnlyBlock(s, s', b)
    ensures |OpenFrom(s', x)| == |OpenFrom(s, x)| + Bit(b in OpenFrom(s', x)) - Bit(b in OpenFrom(s, x))
    ensures |TakenFrom(s', x)| == |TakenFrom(s, x)| + Bit(b in TakenFrom(s', x)) - Bit(b in TakenFrom(s, x))
    ensures |LostFrom(s', x)| == |LostFrom(s, x)| + Bit(b in LostFrom(s', x)) - Bit(b in LostFrom(s, x))
  {
    SetDiffers(OpenFrom(s, x), OpenFrom(s', x), b);
    SetDiffers(TakenFrom(s, x), TakenFrom(s', x), b);
    SetDiffers(LostFrom(s, x), LostFrom(s', x), b);
  }

  lemma CountedOnList(s: State, l: Label, x: Session)
    requires Lists(s) && Tracked(s) && Active(s, x) == Due(s, x) && Enabled(s, l) && OnList(l)
    ensures Active(Step(s, l), x) == Due(Step(s, l), x)
  {
    hide RequestTracked, NoDup;
    SubjectPlaced(s, l);
    if l.Take? {
      CountedTake(s, l, x);
    } else if l.ClearFront? {
      CountedClear(s, l, x);
    } else {
      DueLocal(s, Step(s, l), Subject(s, l), x);
    }
  }

  lemma CountedClear(s: State, l: Label, x: Session)
    requires Lists(s) && Tracked(s) && Active(s, x) == Due(s, x) && Enabled(s, l) && l.ClearFront?
    ensures Active(Step(s, l), x) == Due(Step(s, l), x)
  {
    hide RequestTracked, NoDup;
    SubjectPlaced(s, l);
    DueLocal(s, Step(s, l), Subject(s, l), x);
  }

  lemma CountedTake(s: State, l: Label, x: Session)
    requires Lists(s) && Tracked(s) && Active(s, x) == Due(s, x) && Enabled(s, l) && l.Take?
    ensures Active(Step(s, l), x) == Due(Step(s, l), x)
  {
    hide RequestTracked, NoDup;
    SubjectPlaced(s, l);
    DueLocal(s, Step(s, l), Subject(s, l), x);
    assert BidPlaced(s, l.bid);
    WithoutIs(s.bids[l.bid].items, l.b);
  }

  lemma CountedOffList(s: State, l: Label, x: Session)
    requires Lists(s) && Tracked(s) && Active(s, x) == Due(s, x) && Enabled(s, l) && HasSubject(l) && !OnList(l)
    ensures Active(Step(s, l), x) == Due(Step(s, l), x)
  {
    SubjectPlaced(s, l);
    DueLocal(s, Step(s, l), Subject(s, l), x);
  }

  lemma CountedNoBlock(s: State, l: Label, x: Session)
    requires Lists(s) && Active(s, x) == Due(s, x) && Enabled(s, l) && !HasSubject(l)
    ensures Active(Step(s, l), x) == Due(Step(s, l), x)
  {
    NextBlockUnused(s);
    DueLocal(s, Step(s, l), NextBlock(s), x);
  }

  lemma CountedKept(s: State, l: Label)
    requires Lists(s) && Tracked(s) && Counted(s) && Enabled(s, l)
    ensures Counted(Step(s, l))
  {
    forall x ensures Active(Step(s, l), x) == Due(Step(s, l), x) {
      assert Active(s, x) == Due(s, x);
      if OnList(l) {
        CountedOnList(s, l, x);
      } else if HasSubject(l) {
        CountedOffList(s, l, x);
      } else {
        CountedNoBlock(s, l, x);
      }
    }
  }

  // ---------- runs ----------

  const INITIAL := State([], 0, map[], map[], map[], [])

  /** The labels `ls` are a run from `s` to `t`. */
  ghost predicate Runs(s: State, ls: seq<Label>, t: State)
    decreases ls
  {
    if ls == [] then t == s else Enabled(s, ls[0]) && Runs(Step(s, ls[0]), ls[1..], t)
  }

  lemma InvKept(s: State, l: Label)
    requires Inv(s) && Enabled(s, l)
    ensures Inv(Step(s, l))
  {
    PlacedKept(s, l);
    TrackedKept(s, l);
    CountedKept(s, l);
    LateFirstKept(s, l);
    PairedKept(s, l);
  }

  lemma {:induction false} InvRuns(s: State, ls: seq<Label>, t: State)
    requires Inv(s) && Runs(s, ls, t)
    ensures Inv(t)
    decreases ls
  {
    if ls != [] {
      InvKept(s, ls[0]);
      InvRuns(Step(s, ls[0]), ls[1..], t);
    }
  }

  lemma InitialInv()
    ensures Inv(INITIAL)
  {
  }

  /** Whatever the interleaving: a request's source is closed and written at most once, its block
      is freed at most once and not before the source is closed, and a finished request had all. */
  lemma ServedOnce(ls: seq<Label>, t: State, r: Request)
    requires Runs(INITIAL, ls, t) && r < |t.tracks|
    ensures var k := t.tracks[r];
      && k.writes <= k.closes <= 1 && k.frees <= k.closes
      && (k.frees == 0 <==> exists b :: b in t.live && t.live[b].req == r)
      && (forall b :: b in t.live && t.live[b].req == r ==> (k.closes == 0 <==> Open(t.live[b])))
  {
    InitialInv();
    InvRuns(INITIAL, ls, t);
    assert RequestTracked(t, r);
    forall b | b in t.live && t.live[b].req == r ensures TrackOf(t.tracks[r], t.live[b]) {
      assert BlockTracked(t, b);
    }
    assert t.tracks[r].frees == 0 ==> BlockTracked(t, t.tracks[r].block);
  }

  /** A session's active count is one for each open request it sent, one for each response being
      taken in, one for each request lost and, if it is a registered bid session, 1 plus the length of its list. */
  lemma ActiveCount(ls: seq<Label>, t: State, x: Session)
    requires Runs(INITIAL, ls, t)
    ensures Active(t, x) == |OpenFrom(t, x)| + |TakenFrom(t, x)| + |LostFrom(t, x)|
      + if x in t.bids then 1 + |t.bids[x].items| else 0
  {
    InitialInv();
    InvRuns(INITIAL, ls, t);
    assert Active(t, x) == Due(t, x);
  }

  /** A session that is set idle was active, so the counter never stops at zero. */
  lemma IdleWasActive(ls: seq<Label>, t: State, b: Block)
    requires Runs(INITIAL, ls, t) && b in t.live
    ensures Open(t.live[b]) ==> Active(t, t.live[b].src) > 0
    ensures t.live[b].place.Taken? || t.live[b].place.Listed? ==> Active(t, t.live[b].place.bid) > 0
  {
    InitialInv();
    InvRuns(INITIAL, ls, t);
    var p := t.live[b];
    assert Active(t, p.src) == Due(t, p.src);
    assert Open(p) ==> b in OpenFrom(t, p.src);
    if p.place.Taken? || p.place.Listed? {
      assert BlockPlaced(t, b);
      assert Active(t, p.place.bid) == Due(t, p.place.bid);
      assert p.place.Taken? ==> b in TakenFrom(t, p.place.bid);
    }
  }

  /** The block handed to a new request is in no list and in use by no other request. */
  lemma FreshBlock(ls: seq<Label>, t: State)
    requires Runs(INITIAL, ls, t)
    ensures NextBlock(t) !in t.live && forall x :: x in t.bids ==> NextBlock(t) !in t.bids[x].items
  {
    InitialInv();
    InvRuns(INITIAL, ls, t);
    NextBlockUnused(t);
  }

  /** On a live remote session the k-th response takes off the k-th request sent. */
  lemma ResponsesInOrder(ls: seq<Label>, t: State, x: Session, k: nat)
    requires Runs(INITIAL, ls, t) && x in t.bids && t.bids[x].remote && !t.bids[x].closing
    requires k < |t.bids[x].popped|
    ensures k < |t.bids[x].sent| && t.bids[x].popped[k] == t.bids[x].sent[k]
  {
    InitialInv();
    InvRuns(INITIAL, ls, t);
    assert Paired1(t, t.bids[x]);
  }

  /** In every list the timed-out requests are the first `LateCount`. */
  lemma LateAreFirst(ls: seq<Label>, t: State, x: Session, i: nat)
    requires Runs(INITIAL, ls, t) && x in t.bids && i < |t.bids[x].items|
    ensures forall b :: b in t.bids[x].items ==> b in t.live
    ensures t.live[t.bids[x].items[i]].timeout <==> i < LateCount(t, t.bids[x].items)
  {
    InitialInv();
    InvRuns(INITIAL, ls, t);
    assert BidPlaced(t, x) && LatePrefix(t, t.bids[x].items);
  }

  /** When no block is in use every request has been served and only registrations hold sessions. */
  lemma AllServed(ls: seq<Label>, t: State)
    requires Runs(INITIAL, ls, t) && t.live == map[]
    ensures forall r :: 0 <= r < |t.tracks| ==>
      t.tracks[r].closes == 1 && t.tracks[r].writes <= 1 && t.tracks[r].frees == 1
    ensures forall x :: Active(t, x) == if x in t.bids then 1 else 0
  {
    InitialInv();
    InvRuns(INITIAL, ls, t);
    forall r | 0 <= r < |t.tracks| ensures t.tracks[r].closes == 1 && t.tracks[r].writes <= 1
      && t.tracks[r].frees == 1 {
      assert RequestTracked(t, r);
    }
    forall x ensures Active(t, x) == if x in t.bids then 1 else 0 {
      assert Active(t, x) == Due(t, x);
      assert OpenFrom(t, x) == {} && TakenFrom(t, x) == {} && LostFrom(t, x) == {};
      if x in t.bids {
        assert BidPlaced(t, x);
        assert multiset(t.bids[x].items) == multiset{};
        assert |multiset(t.bids[x].items)| == |t.bids[x].items|;
      }
    }
  }

  // ---------- whole critical sections as runs of steps ----------

  lemma {:induction false} RunsSnoc(s: State, ls: seq<Label>, t: State, l: Label)
    requires Runs(s, ls, t) && Enabled(t, l)
    ensures Runs(s, ls + [l], Step(t, l))
    decreases ls
  {
    hide Step, Enabled;
    if ls == [] {
      assert Runs(Step(s, l), [], Step(t, l));
    } else {
      assert (ls + [l])[1..] == ls[1..] + [l];
      RunsSnoc(Step(s, ls[0]), ls[1..], t, l);
    }
  }

  /** The step closes the source of its block. */
  predicate Closes(s: State, l: Label)
    requires Enabled(s, l)
  {
    l.Reject? || l.Expire? || ((l.Answer? || l.ClearFront?) && !s.live[Subject(s, l)].timeout)
  }

  /** The step gives its block back. */
  predicate Frees(l: Label) {
    l.Free? || l.ClearFront?
  }

  /** The blocks whose source a run closes, in order. */
  ghost function Closings(s: State, ls: seq<Label>): seq<Block>
    decreases ls
  {
    if ls == [] || !Enabled(s, ls[0]) then []
    else (if Closes(s, ls[0]) then [Subject(s, ls[0])] else []) + Closings(Step(s, ls[0]), ls[1..])
  }

  /** The blocks that a run gives back, in order. */
  ghost function Freeings(s: State, ls: seq<Label>): seq<Block>
    decreases ls
  {
    if ls == [] || !Enabled(s, ls[0]) then []
    else (if Frees(ls[0]) then [Subject(s, ls[0])] else []) + Freeings(Step(s, ls[0]), ls[1..])
  }

  /** The requests still in time, in order. */
  ghost function StillOpen(s: State, items: seq<Block>): seq<Block>
    requires forall b :: b in items ==> b in s.live
  {
    if items == [] then []
    else (if s.live[items[0]].timeout then [] else [items[0]]) + StillOpen(s, items[1..])
  }

  lemma {:induction false} StillOpenSame(s: State, t: State, items: seq<Block>)
    requires forall b :: b in items ==> b in s.live && b in t.live && t.live[b].timeout == s.live[b].timeout
    ensures StillOpen(s, items) == StillOpen(t, items)
  {
    if items != [] { StillOpenSame(s, t, items[1..]); }
  }

  lemma {:induction false} ClosingsSnoc(s: State, ls: seq<Label>, t: State, l: Label)
    requires Runs(s, ls, t) && Enabled(t, l)
    ensures Closings(s, ls + [l]) == Closings(s, ls) + if Closes(t, l) then [Subject(t, l)] else []
    decreases ls
  {
    hide Step, Enabled, Subject, Closes;
    if ls == [] {
      assert Closings(Step(t, l), []) == [];
      assert (ls + [l])[1..] == [];
    } else {
      assert (ls + [l])[1..] == ls[1..] + [l];
      ClosingsSnoc(Step(s, ls[0]), ls[1..], t, l);
    }
  }

  lemma {:induction false} LateCountIs(s: State, items: seq<Block>, k: nat)
    requires k <= |items| && forall b :: b in items ==> b in s.live
    requires forall i :: 0 <= i < |items| ==> (s.live[items[i]].timeout <==> i < k)
    ensures LateCount(s, items) == k
  {
    if k > 0 { LateCountIs(s, items[1..], k - 1); }
  }

  lemma ListedKnown(s: State, x: Session)
    requires Inv(s) && x in s.bids
    ensures NoDup(s.bids[x].items) && forall b :: b in s.bids[x].items ==> Known(s, b)
  {
    assert BidPlaced(s, x);
    forall b | b in s.bids[x].items ensures Known(s, b) { assert BlockTracked(s, b); }
  }

  /** The list's requests are timed out exactly up to `n`. */
  ghost predicate LateUpTo(s: State, items: seq<Block>, n: nat) {
    forall i :: 0 <= i < |items| ==> items[i] in s.live && (s.live[items[i]].timeout <==> i < n)
  }

  /** `check`: however far it gets, it is a run of `Expire` steps, one for each request it times out. */
  lemma {:induction false} CheckIsRun(s: State, x: Session, n: nat) returns (ls: seq<Label>, t: State)
    requires Inv(s) && x in s.bids && !s.bids[x].closing
    requires forall b :: b in s.bids[x].items ==> b in s.live
    requires LateCount(s, s.bids[x].items) <= n <= |s.bids[x].items|
    ensures Runs(s, ls, t) && Inv(t) && t.bids == s.bids && LateUpTo(t, s.bids[x].items, n)
    ensures |ls| == n - LateCount(s, s.bids[x].items) && forall l :: l in ls ==> l.Expire? && l.bid == x
    ensures Closings(s, ls) == s.bids[x].items[LateCount(s, s.bids[x].items)..n]
    decreases n
  {
    hide LateCount, Step, Subject, Placed, Tracked, Paired, Counted;
    var items := s.bids[x].items;
    if n == LateCount(s, items) {
      ls, t := [], s;
      LateNow(s, x);
    } else {
      ls, t := CheckIsRun(s, x, n - 1);
      ListedKnown(t, x);
      LateCountIs(t, items, n - 1);
      var l := Expire(x, true);
      ExpireNext(t, x, n - 1);
      InvKept(t, l);
      RunsSnoc(s, ls, t, l);
      ClosingsSnoc(s, ls, t, l);
      ls, t := ls + [l], Step(t, l);
    }
  }

  lemma LateNow(s: State, x: Session)
    requires Inv(s) && x in s.bids && forall b :: b in s.bids[x].items ==> b in s.live
    ensures LateUpTo(s, s.bids[x].items, LateCount(s, s.bids[x].items))
  {
    assert LatePrefix(s, s.bids[x].items);
  }

  lemma ExpireNext(s: State, x: Session, n: nat)
    requires x in s.bids && n < |s.bids[x].items| && NoDup(s.bids[x].items) && Enabled(s, Expire(x, true))
    requires LateUpTo(s, s.bids[x].items, n) && LateCount(s, s.bids[x].items) == n
    ensures Step(s, Expire(x, true)).bids == s.bids && LateUpTo(Step(s, Expire(x, true)), s.bids[x].items, n + 1)
    ensures Subject(s, Expire(x, true)) == s.bids[x].items[n]
  {
  }

  /** `clear` and what follows it: a run that gives up every listed block and ends with the session unregistered. */
  lemma {:induction false} ClearIsRun(s: State, x: Session) returns (ls: seq<Label>, t: State)
    requires Inv(s) && x in s.bids && s.bids[x].closing
    ensures Runs(s, ls, t) && Inv(t) && t.bids == s.bids - {x} && |ls| == |s.bids[x].items| + 1
    ensures forall b :: b in s.bids[x].items ==> b in s.live && b !in t.live
    ensures forall b :: b !in s.bids[x].items ==> (b in t.live <==> b in s.live)
    ensures Freeings(s, ls) == s.bids[x].items && Closings(s, ls) == StillOpen(s, s.bids[x].items)
    decreases |s.bids[x].items|
  {
    var items := s.bids[x].items;
    var l := if items == [] then Unregister(x) else ClearFront(x, true);
    ListedKnown(s, x);
    assert items != [] ==> items[0] in items;
    InvKept(s, l);
    var s' := Step(s, l);
    if items == [] {
      ls, t := [l], s';
      assert Runs(s', [], s');
    } else {
      ClearNext(s, x);
      var rest;
      rest, t := ClearIsRun(s', x);
      ls := [l] + rest;
      assert ls[1..] == rest && [items[0]] + items[1..] == items;
      StillOpenSame(s, s', items[1..]);
    }
  }

  lemma ClearNext(s: State, x: Session)
    requires x in s.bids && s.bids[x].items != [] && NoDup(s.bids[x].items) && Enabled(s, ClearFront(x, true))
    ensures var t, items := Step(s, ClearFront(x, true)), s.bids[x].items;
      && x in t.bids && t.bids[x].closing && t.bids[x].items == items[1..] && t.bids - {x} == s.bids - {x}
      && (forall b :: b in items <==> b == items[0] || b in items[1..]) && items[0] !in items[1..]
      && (forall b :: b in t.live <==> b in s.live && b != items[0])
      && forall b :: b in t.live ==> t.live[b] == s.live[b]
  {
    var items := s.bids[x].items;
    assert items == [items[0]] + items[1..];
  }

  // ---------- a response without a valid length ----------

  /** No step touches a lost block. */
  lemma LostStays(s: State, l: Label, b: Block)
    requires Lists(s) && Tracked(s) && Enabled(s, l) && b in s.live && s.live[b].place.Lost?
    ensures b in Step(s, l).live && Step(s, l).live[b] == s.live[b]
  {
    NextBlockUnused(s);
    if HasSubject(l) { SubjectPlaced(s, l); }
  }

  lemma {:induction false} LostForever(s: State, ls: seq<Label>, t: State, b: Block)
    requires Inv(s) && Runs(s, ls, t) && b in s.live && s.live[b].place.Lost?
    ensures Inv(t) && b in t.live && t.live[b] == s.live[b]
    decreases ls
  {
    if ls != [] {
      LostStays(s, ls[0], b);
      InvKept(s, ls[0]);
      LostForever(Step(s, ls[0]), ls[1..], t, b);
    }
  }

  /** A request dropped by a response without a valid length: in every later run its block is never freed, its
      source, if it was open, never closed, and the bid session never idle. */
  lemma DroppedForever(s: State, x: Session, ls: seq<Label>, t: State)
    requires Inv(s) && Enabled(s, Drop(x)) && Runs(Step(s, Drop(x)), ls, t)
    ensures var b := s.bids[x].items[0];
      && b in LostFrom(t, x) && Active(t, x) > 0 && s.live[b].req < |t.tracks|
      && t.tracks[s.live[b].req].frees == 0 && (!s.live[b].timeout ==> t.tracks[s.live[b].req].closes == 0)
  {
    var b := s.bids[x].items[0];
    InvKept(s, Drop(x));
    LostForever(Step(s, Drop(x)), ls, t, b);
    assert BlockTracked(t, b) && b in LostFrom(t, x);
    assert Active(t, x) == Due(t, x);
  }

  // ---------- whose request a response answers ----------

  /** `items` lose `b`; all others keep their order. */
  ghost predicate OneOut(items: seq<Block>, items': seq<Block>, b: Block) {
    exists i :: 0 <= i < |items| && items[i] == b && items' == items[..i] + items[i + 1..]
  }

  /** The block `b` is off the list of session `x`, and nothing else has changed but what the session notes of it. */
  ghost predicate TakenOff(s: State, t: State, x: Session, b: Block) {
    && b in s.live && x in s.bids && x in t.bids
    && s.live[b].place == Listed(x) && t.live == s.live[b := s.live[b].(place := Taken(x))]
    && OneOut(s.bids[x].items, t.bids[x].items, b) && t.bids == s.bids[x := t.bids[x]]
    && t.bids[x].remote == s.bids[x].remote && t.bids[x].closing == s.bids[x].closing
    && t.tracks == s.tracks && t.active == s.active && t.pool == s.pool && t.next == s.next
  }

  /** A new request gets a block that is in no use, opened for its source, which waits for one request more. */
  lemma AcceptIs(s: State, src: Session) returns (b: Block)
    requires Inv(s)
    ensures Enabled(s, Accept(src)) && b !in s.live
    ensures var t := Step(s, Accept(src));
      && t.live == s.live[b := Para(|s.tracks|, src, false, Opened)] && t.bids == s.bids
      && t.tracks == s.tracks + [Track(b, 0, 0, 0)]
      && (if s.pool == [] then b == s.next && t.pool == [] else s.pool == [b] + t.pool && t.next == s.next)
      && forall y :: Active(t, y) == Active(s, y) + if y == src then 1 else 0
  {
    NextBlockUnused(s);
    b := NextBlock(s);
  }

  lemma DispatchIs(s: State, b: Block, x: Session)
    requires Inv(s) && b in s.live && s.live[b].place == Opened && x in s.bids
    ensures Enabled(s, Dispatch(b, x))
    ensures var t, d := Step(s, Dispatch(b, x)), s.bids[x];
      && t.live == s.live[b := s.live[b].(place := Listed(x))] && t.tracks == s.tracks
      && t.bids == s.bids[x := d.(items := d.items + [b], sent := d.sent + [s.live[b].req])]
      && forall y :: Active(t, y) == Active(s, y) + if y == x then 1 else 0
  {
    assert BlockTracked(s, b);
  }

  /** A request goes to the end of the list it is sent to, and its source and the bid session wait for one more. */
  lemma Dispatched(ls: seq<Label>, s: State, src: Session, x: Session) returns (b: Block, t: State)
    requires Runs(INITIAL, ls, s) && x in s.bids
    ensures b !in s.live && Runs(s, [Accept(src), Dispatch(b, x)], t)
    ensures t.live == s.live[b := Para(|s.tracks|, src, false, Listed(x))]
      && t.tracks == s.tracks + [Track(b, 0, 0, 0)]
    ensures var d := s.bids[x];
      t.bids == s.bids[x := d.(items := d.items + [b], sent := d.sent + [|s.tracks|])]
    ensures forall y :: Active(t, y) == Active(s, y) + (if y == src then 1 else 0) + (if y == x then 1 else 0)
  {
    InitialInv();
    InvRuns(INITIAL, ls, s);
    hide Step, Inv;
    b := AcceptIs(s, src);
    InvKept(s, Accept(src));
    var s1 := Step(s, Accept(src));
    DispatchIs(s1, b, x);
    t := Step(s1, Dispatch(b, x));
    InAndOut(s.live, b, s1.live[b], t.live[b]);
    RunsTwo(s, Accept(src), Dispatch(b, x));
  }

  lemma RejectIs(s: State, b: Block, wrote: bool)
    requires Inv(s) && b in s.live && s.live[b].place == Opened
    ensures Enabled(s, Reject(b, wrote)) && s.live[b].req < |s.tracks|
    ensures var t, p := Step(s, Reject(b, wrote)), s.live[b];
      && t.live == s.live[b := p.(place := Done)] && t.bids == s.bids
      && t.tracks == s.tracks[p.req := Track(b, 1, if wrote then 1 else 0, 0)]
      && forall y :: Active(s, y) == Active(t, y) + if y == p.src then 1 else 0
  {
    assert BlockTracked(s, b);
    var x := s.live[b].src;
    assert Active(s, x) == Due(s, x) && b in OpenFrom(s, x);
  }

  /** A time-out closes the source of the first request that is still in time; the request stays in the list. */
  lemma ExpiresFirst(ls: seq<Label>, s: State, x: Session, wrote: bool) returns (i: nat)
    requires Runs(INITIAL, ls, s) && Enabled(s, Expire(x, wrote))
    ensures i < |s.bids[x].items| && forall j :: 0 <= j <= i ==> s.bids[x].items[j] in s.live
    ensures !s.live[s.bids[x].items[i]].timeout && forall j :: 0 <= j < i ==> s.live[s.bids[x].items[j]].timeout
    ensures s.live[s.bids[x].items[i]].req < |s.tracks|
    ensures var t, b, p := Step(s, Expire(x, wrote)), s.bids[x].items[i], s.live[s.bids[x].items[i]];
      && t.live == s.live[b := p.(timeout := true)] && t.bids == s.bids && s.tracks[p.req].closes == 0
      && t.tracks == s.tracks[p.req := Track(b, 1, if wrote then 1 else 0, 0)]
      && forall y :: Active(s, y) == Active(t, y) + if y == p.src then 1 else 0
  {
    InitialInv();
    InvRuns(INITIAL, ls, s);
    i := LateCount(s, s.bids[x].items);
    SubjectPlaced(s, Expire(x, wrote));
    OpenIsCounted(s, s.bids[x].items[i]);
  }

  /** A source that is not closed yet is held. */
  lemma OpenIsCounted(s: State, b: Block)
    requires Inv(s) && b in s.live && Open(s.live[b])
    ensures Active(s, s.live[b].src) > 0
  {
    var x := s.live[b].src;
    assert Active(s, x) == Due(s, x) && b in OpenFrom(s, x);
  }

  /** A request that no engine takes is answered at once, and leaves nothing but its history. */
  lemma Rejected(ls: seq<Label>, s: State, src: Session, wrote: bool) returns (b: Block, t: State)
    requires Runs(INITIAL, ls, s)
    ensures b !in s.live && Runs(s, [Accept(src), Reject(b, wrote), Free(b)], t)
    ensures t.live == s.live && t.bids == s.bids && forall y :: Active(t, y) == Active(s, y)
    ensures t.tracks == s.tracks + [Track(b, 1, if wrote then 1 else 0, 1)]
  {
    InitialInv();
    InvRuns(INITIAL, ls, s);
    hide Step, Inv;
    b := AcceptIs(s, src);
    InvKept(s, Accept(src));
    var s1 := Step(s, Accept(src));
    t := Refused(s1, b, wrote);
    InAndOut(s.live, b, s1.live[b], s1.live[b]);
    Rewritten(s.tracks, s1.tracks[|s.tracks|], t.tracks[|s.tracks|]);
    RunsThree(s, Accept(src), Reject(b, wrote), Free(b));
  }

  lemma Refused(s: State, b: Block, wrote: bool) returns (t: State)
    requires Inv(s) && b in s.live && s.live[b].place == Opened
    ensures Enabled(s, Reject(b, wrote)) && Enabled(Step(s, Reject(b, wrote)), Free(b))
    ensures t == Step(Step(s, Reject(b, wrote)), Free(b)) && s.live[b].req < |s.tracks|
    ensures t.live == s.live - {b} && t.bids == s.bids
    ensures t.tracks == s.tracks[s.live[b].req := Track(b, 1, if wrote then 1 else 0, 1)]
    ensures forall y :: Active(s, y) == Active(t, y) + if y == s.live[b].src then 1 else 0
  {
    hide Step, Inv;
    RejectIs(s, b, wrote);
    InvKept(s, Reject(b, wrote));
    FreeIs(Step(s, Reject(b, wrote)), b);
    t := Step(Step(s, Reject(b, wrote)), Free(b));
  }

  lemma InAndOut(m: map<Block, Para>, b: Block, p: Para, q: Para)
    requires b !in m
    ensures m[b := p] - {b} == m && m[b := p][b := q] == m[b := q]
  {
  }

  lemma Rewritten(s: seq<Track>, k: Track, l: Track)
    ensures (s + [k])[|s| := l] == s + [l]
  {
  }

  lemma RunsTwo(s: State, k: Label, l: Label)
    requires Enabled(s, k) && Enabled(Step(s, k), l)
    ensures Runs(s, [k, l], Step(Step(s, k), l))
  {
    hide Enabled, Step;
    var s1 := Step(s, k);
    var t := Step(s1, l);
    assert [l][1..] == [] && Runs(t, [], t);
    assert Runs(s1, [l], t);
    assert [k, l][1..] == [l];
  }

  /** A local response takes off the block it names, wherever that is in the list. */
  lemma TakesNamed(ls: seq<Label>, s: State, x: Session, b: Block)
    requires Runs(INITIAL, ls, s) && Enabled(s, Take(x, b))
    ensures TakenOff(s, Step(s, Take(x, b)), x, b)
  {
    InitialInv();
    InvRuns(INITIAL, ls, s);
    assert BidPlaced(s, x);
    var k := WithoutAt(s.bids[x].items, b);
    var t := Step(s, Take(x, b));
    assert t.bids[x].items == s.bids[x].items[..k] + s.bids[x].items[k + 1..];
  }

  /** A remote response takes off the front. */
  lemma PopsFront(ls: seq<Label>, s: State, x: Session)
    requires Runs(INITIAL, ls, s) && Enabled(s, Pop(x))
    ensures TakenOff(s, Step(s, Pop(x)), x, s.bids[x].items[0])
  {
    InitialInv();
    InvRuns(INITIAL, ls, s);
    assert BidPlaced(s, x);
    var items, t := s.bids[x].items, Step(s, Pop(x));
    assert items[0] in items && t.bids[x].items == items[..0] + items[1..];
  }

  /** The request of `b`, and no other, is finished: its source closed if it was still open, and written if it was
      both open and the answer a real one; its block given up. The bid session and, if it was open, the source wait for
      one request less. */
  ghost predicate Finished(s: State, t: State, x: Session, b: Block, wrote: bool)
    requires b in s.live && s.live[b].req < |s.tracks|
  {
    var p := s.live[b];
    var k := s.tracks[p.req];
    && t.live == s.live - {b} && t.bids == s.bids
    && t.tracks == s.tracks[p.req := Track(b, 1, if !p.timeout && wrote then k.writes + 1 else k.writes, 1)]
    && (p.timeout || k.closes == 0)
    && forall y ::
      Active(s, y) == Active(t, y) + (if y == x then 1 else 0) + (if y == p.src && !p.timeout then 1 else 0)
  }

  lemma IdleIs(s: State, x: Session, b: Block)
    requires Inv(s) && b in s.live && s.live[b].place == Taken(x)
    ensures Enabled(s, IdleBid(b))
    ensures var t := Step(s, IdleBid(b));
      && t.live == s.live[b := s.live[b].(place := Answering)] && t.bids == s.bids && t.tracks == s.tracks
      && forall y :: Active(s, y) == Active(t, y) + if y == x then 1 else 0
  {
    assert BlockTracked(s, b);
    assert Active(s, x) == Due(s, x) && b in TakenFrom(s, x);
  }

  lemma AnswerIs(s: State, b: Block, wrote: bool)
    requires Inv(s) && b in s.live && s.live[b].place == Answering
    ensures Enabled(s, Answer(b, wrote)) && s.live[b].req < |s.tracks|
    ensures var t, p, k := Step(s, Answer(b, wrote)), s.live[b], s.tracks[s.live[b].req];
      && t.live == s.live[b := p.(place := Done)] && t.bids == s.bids && (p.timeout || k.closes == 0)
      && t.tracks == s.tracks[p.req := Track(b, 1, if !p.timeout && wrote then k.writes + 1 else k.writes, 0)]
      && forall y :: Active(s, y) == Active(t, y) + if y == p.src && !p.timeout then 1 else 0
  {
    assert BlockTracked(s, b);
    var x := s.live[b].src;
    assert Active(s, x) == Due(s, x) && (!s.live[b].timeout ==> b in OpenFrom(s, x));
  }

  lemma FreeIs(s: State, b: Block)
    requires Inv(s) && b in s.live && s.live[b].place == Done
    ensures Enabled(s, Free(b)) && s.live[b].req < |s.tracks|
    ensures var t, r := Step(s, Free(b)), s.live[b].req;
      && t.live == s.live - {b} && t.bids == s.bids && t.active == s.active
      && t.pool == (if |s.pool| < 1638399 then s.pool + [b] else s.pool)
      && t.tracks == s.tracks[r := s.tracks[r].(frees := 1)]
  {
    assert BlockTracked(s, b);
  }

  /** What the handler does once a block is off its list. */
  lemma Finishing(s: State, x: Session, b: Block, wrote: bool) returns (t: State)
    requires Inv(s) && b in s.live && s.live[b].place == Taken(x)
    ensures s.live[b].req < |s.tracks| && Runs(s, [IdleBid(b), Answer(b, wrote), Free(b)], t)
    ensures Finished(s, t, x, b, wrote)
  {
    hide Step, Inv;
    IdleIs(s, x, b);
    var s1 := Step(s, IdleBid(b));
    InvKept(s, IdleBid(b));
    AnswerIs(s1, b, wrote);
    var s2 := Step(s1, Answer(b, wrote));
    InvKept(s1, Answer(b, wrote));
    FreeIs(s2, b);
    t := Step(s2, Free(b));
    RunsThree(s, IdleBid(b), Answer(b, wrote), Free(b));
  }

  lemma RunsThree(s: State, k: Label, l: Label, m: Label)
    requires Enabled(s, k) && Enabled(Step(s, k), l) && Enabled(Step(Step(s, k), l), m)
    ensures Runs(s, [k, l, m], Step(Step(Step(s, k), l), m))
  {
    hide Enabled, Step;
    var s1, s2 := Step(s, k), Step(Step(s, k), l);
    var t := Step(s2, m);
    assert [m][1..] == [] && Runs(t, [], t);
    assert Runs(s2, [m], t);
    assert [l, m][1..] == [m];
    assert Runs(s1, [l, m], t);
    assert [k, l, m][1..] == [l, m];
  }

  /** A local response is answered to the source of the request it names, whatever else is waiting. */
  lemma LocalResponse(ls: seq<Label>, s: State, x: Session, b: Block, wrote: bool) returns (t: State)
    requires Runs(INITIAL, ls, s) && Enabled(s, Take(x, b))
    ensures Runs(s, [Take(x, b), IdleBid(b), Answer(b, wrote), Free(b)], t)
    ensures var s' := Step(s, Take(x, b));
      TakenOff(s, s', x, b) && s'.live[b].req < |s'.tracks| && Finished(s', t, x, b, wrote)
  {
    TakesNamed(ls, s, x, b);
    InitialInv();
    InvRuns(INITIAL, ls, s);
    InvKept(s, Take(x, b));
    t := Finishing(Step(s, Take(x, b)), x, b, wrote);
    var all := [Take(x, b), IdleBid(b), Answer(b, wrote), Free(b)];
    assert all[1..] == [IdleBid(b), Answer(b, wrote), Free(b)];
  }

  /** A remote response is answered to the source of the front of the list. */
  lemma RemoteResponse(ls: seq<Label>, s: State, x: Session, wrote: bool) returns (t: State)
    requires Runs(INITIAL, ls, s) && Enabled(s, Pop(x))
    ensures var b, s' := s.bids[x].items[0], Step(s, Pop(x));
      && Runs(s, [Pop(x), IdleBid(b), Answer(b, wrote), Free(b)], t)
      && TakenOff(s, s', x, b) && s'.live[b].req < |s'.tracks| && Finished(s', t, x, b, wrote)
  {
    PopsFront(ls, s, x);
    InitialInv();
    InvRuns(INITIAL, ls, s);
    InvKept(s, Pop(x));
    var b := s.bids[x].items[0];
    t := Finishing(Step(s, Pop(x)), x, b, wrote);
    var all := [Pop(x), IdleBid(b), Answer(b, wrote), Free(b)];
    assert all[1..] == [IdleBid(b), Answer(b, wrote), Free(b)];
  }

  // ---------- progress ----------

  /** How many steps a block in such a place still needs at most. */
  function Rank(p: Place): nat {
    match p
    case Lost(_) => 0
    case Done => 1
    case Answering => 2
    case Opened => 2
    case Taken(_) => 3
    case Listed(_) => 4
  }

  ghost function AtLeast(s: State, k: nat): set<Block> {
    set b | b in s.live && Rank(s.live[b].place) >= k
  }

  ghost function Weight(s: State): nat {
    |AtLeast(s, 1)| + |AtLeast(s, 2)| + |AtLeast(s, 3)| + |AtLeast(s, 4)|
  }

  lemma RankFalls(s: State, s': State, b: Block)
    requires OnlyBlock(s, s', b) && b in s.live
    requires Rank(s.live[b].place) > if b in s'.live then Rank(s'.live[b].place) else 0
    ensures Weight(s') < Weight(s)
  {
    SetDiffers(AtLeast(s, 1), AtLeast(s', 1), b);
    SetDiffers(AtLeast(s, 2), AtLeast(s', 2), b);
    SetDiffers(AtLeast(s, 3), AtLeast(s', 3), b);
    SetDiffers(AtLeast(s, 4), AtLeast(s', 4), b);
  }

  /** Steps that bring a block further on its way. */
  predicate Advances(l: Label) {
    l.Reject? || l.Answer? || l.Free? || l.IdleBid? || l.ClearFront? || l.Pop? || l.Take?
  }

  lemma Advanced(s: State, l: Label)
    requires Inv(s) && Enabled(s, l) && Advances(l)
    ensures Weight(Step(s, l)) < Weight(s)
    ensures forall c :: c in Step(s, l).live && Step(s, l).live[c].place.Lost? ==> c in s.live && s.live[c].place.Lost?
  {
    hide Weight, Lists, Tracked, Step, OnlyBlock;
    Further(s, l);
    RankFalls(s, Step(s, l), Subject(s, l));
  }

  /** The block of such a step is further on its way, or free; no block gets lost. */
  lemma Further(s: State, l: Label)
    requires Lists(s) && Tracked(s) && Enabled(s, l) && Advances(l)
    ensures var b, s' := Subject(s, l), Step(s, l);
      && b in s.live && OnlyBlock(s, s', b)
      && Rank(s.live[b].place) > (if b in s'.live then Rank(s'.live[b].place) else 0)
      && forall c :: c in s'.live && s'.live[c].place.Lost? ==> c in s.live && s.live[c].place.Lost?
  {
    hide RequestTracked, BidPlaced;
    SubjectPlaced(s, l);
  }

  /** As long as a block is in use and not lost, some step brings it or another one further. */
  lemma SomeStep(s: State, b: Block) returns (l: Label)
    requires Inv(s) && b in s.live && !s.live[b].place.Lost?
    ensures Enabled(s, l) && Advances(l)
  {
    assert BlockTracked(s, b) && BlockPlaced(s, b);
    match s.live[b].place
    case Opened => l := Reject(b, true);
    case Answering => l := Answer(b, true);
    case Done => l := Free(b);
    case Taken(_) => l := IdleBid(b);
    case Listed(x) =>
      ListedKnown(s, x);
      assert s.bids[x].items[0] in s.bids[x].items;
      if s.bids[x].closing {
        l := ClearFront(x, true);
      } else if s.bids[x].remote {
        l := Pop(x);
      } else {
        l := Take(x, b);
      }
  }

  /** From every reachable state some run ends with no block in use but those lost before. */
  lemma {:induction false} Finishes(s: State) returns (ls: seq<Label>, t: State)
    requires Inv(s)
    ensures Runs(s, ls, t) && Inv(t)
    ensures forall b :: b in t.live ==> t.live[b].place.Lost? && b in s.live && s.live[b].place.Lost?
    ensures (forall b :: b in s.live ==> !s.live[b].place.Lost?) ==> t.live == map[]
    decreases Weight(s)
  {
    if b :| b in s.live && !s.live[b].place.Lost? {
      var l := SomeStep(s, b);
      InvKept(s, l);
      Advanced(s, l);
      var rest;
      rest, t := Finishes(Step(s, l));
      ls := [l] + rest;
      assert ls[1..] == rest;
    } else {
      ls, t := [], s;
    }
  }
}
