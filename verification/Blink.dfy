// The blinking characters of the fish program: a linked list whose nodes live in an array, and
// are free when their location is 0.
module Blinking {
  import opened Bytes

  const SLOTS := 2000
  const CELLS := 2000
  const NULL := 0

  type uint16 = x: int | 0 <= x < 0x1_0000

  datatype Blink = Blink(location: uint16, on: byte, off: byte, onLength: uint16, offLength: uint16,
                         countdown: uint16, status: uint16)

  /** A pointer to a node is its index in the array; index 0 is not a node but NULL. */
  datatype Node = Node(blink: Blink, next: nat)

  const CLEARED := Node(Blink(0, 0, 0, 0, 0, 0, 0), NULL)

  function Pointer(order: seq<nat>, i: nat): nat {
    if i < |order| then order[i] else NULL
  }

  ghost predicate Distinct(order: seq<nat>) {
    && (forall i | 0 <= i < |order| :: 1 <= order[i] <= SLOTS)
    && forall i, j | 0 <= i < j < |order| :: order[i] != order[j]
  }

  /** From `head` on the nodes lead to the nodes `order`, one after the other. */
  ghost predicate Chained(nodes: seq<Node>, head: nat, order: seq<nat>)
    requires |nodes| == SLOTS + 1 && Distinct(order)
  {
    && head == Pointer(order, 0)
    && forall i | 0 <= i < |order| :: nodes[order[i]].next == Pointer(order, i + 1)
  }

  /** The nodes `order` are exactly those with a location other than 0. */
  ghost predicate Used(nodes: seq<Node>, order: seq<nat>)
    requires |nodes| == SLOTS + 1
  {
    forall p | 1 <= p <= SLOTS :: nodes[p].blink.location != 0 <==> p in order
  }

  /** The nodes form a list without a cycle that visits exactly the nodes in use. */
  ghost predicate Linked(nodes: seq<Node>, head: nat, order: seq<nat>)
    ensures Linked(nodes, head, order) ==> |nodes| == SLOTS + 1 && Distinct(order)
  {
    |nodes| == SLOTS + 1 && Distinct(order) && Chained(nodes, head, order) && Used(nodes, order)
  }

  /** The blinks on the list, the one added last first. */
  ghost function Blinks(nodes: seq<Node>, order: seq<nat>): (r: seq<Blink>)
    requires |nodes| == SLOTS + 1 && Distinct(order)
    ensures |r| == |order| && forall i | 0 <= i < |r| :: r[i] == nodes[order[i]].blink
  {
    seq(|order|, i requires 0 <= i < |order| => nodes[order[i]].blink)
  }

  /** The index of the first blink at `location`, or the number of blinks when there is none. */
  function FirstAt(bs: seq<Blink>, location: uint16): (k: nat)
    ensures k <= |bs| && (k < |bs| ==> bs[k].location == location)
    ensures forall i | 0 <= i < k :: bs[i].location != location
  {
    if bs == [] || bs[0].location == location then 0 else 1 + FirstAt(bs[1..], location)
  }

  /** What is found at `location`. */
  function Found(bs: seq<Blink>, location: uint16): Option<Blink> {
    var k := FirstAt(bs, location);
    if k < |bs| then Some(bs[k]) else None
  }

  /** Blink `k` is at `location`, and none before it is. */
  ghost predicate IsFirst(bs: seq<Blink>, location: uint16, k: nat) {
    k < |bs| && bs[k].location == location && forall j | 0 <= j < k :: bs[j].location != location
  }

  /** `r` is the first blink at `location`, or says that there is none. */
  ghost predicate Tells(bs: seq<Blink>, location: uint16, r: Option<Blink>) {
    && (r == None <==> forall i | 0 <= i < |bs| :: bs[i].location != location)
    && forall k: nat | IsFirst(bs, location, k) :: r == Some(bs[k])
  }

  lemma FoundTells(bs: seq<Blink>, location: uint16)
    ensures Tells(bs, location, Found(bs, location))
  {
    forall k: nat | IsFirst(bs, location, k) ensures k == FirstAt(bs, location) {
      FirstAtIs(bs, location, k);
    }
  }

  function Without(bs: seq<Blink>, location: uint16): seq<Blink> {
    var k := FirstAt(bs, location);
    if k == |bs| then bs else bs[..k] + bs[k + 1..]
  }

  /** A blink as it is when it has just been added. */
  function Fresh(b: Blink): Blink {
    b.(status := 1, countdown := b.onLength)
  }

  /** Adding a blink hides those that it shares its location with, and removing it brings them
      back. */
  lemma RemoveUndoesAdd(bs: seq<Blink>, b: Blink)
    ensures FirstAt([Fresh(b)] + bs, b.location) == 0
    ensures Without([Fresh(b)] + bs, b.location) == bs
  {
  }

  /** Removing takes out exactly one blink, the first at the location, and keeps all others in order. */
  lemma WithoutTakesOne(bs: seq<Blink>, location: uint16, k: nat)
    requires k < |bs| && bs[k].location == location && forall j | 0 <= j < k :: bs[j].location != location
    ensures
      var rest := Without(bs, location);
      |rest| == |bs| - 1 && forall i | 0 <= i < |rest| :: rest[i] == bs[if i < k then i else i + 1]
  {
    FirstAtIs(bs, location, k);
  }

  /** What is found at every other location is what was found before. */
  lemma OthersStay(bs: seq<Blink>, location: uint16, other: uint16)
    requires other != location
    ensures
      var rest := Without(bs, location);
      var i, j := FirstAt(bs, other), FirstAt(rest, other);
      (i == |bs| <==> j == |rest|) && (i < |bs| ==> rest[j] == bs[i])
  {
    var rest, k, i := Without(bs, location), FirstAt(bs, location), FirstAt(bs, other);
    if k < |bs| {
      WithoutTakesOne(bs, location, k);
      FirstAtIs(rest, other, if i < k then i else i - 1);
    }
  }

  lemma RemovalLaws(bs: seq<Blink>, location: uint16)
    ensures
      var k := FirstAt(bs, location);
      Without(bs, location) == if k == |bs| then bs else bs[..k] + bs[k + 1..]
    ensures forall k: nat | IsFirst(bs, location, k) ::
              && k == FirstAt(bs, location) < |bs| && |Without(bs, location)| == |bs| - 1
              && forall i | 0 <= i < |bs| - 1 :: Without(bs, location)[i] == bs[if i < k then i else i + 1]
    ensures forall other: uint16 | other != location :: Found(Without(bs, location), other) == Found(bs, other)
  {
    forall k: nat | IsFirst(bs, location, k)
      ensures k == FirstAt(bs, location) && |Without(bs, location)| == |bs| - 1
      ensures forall i | 0 <= i < |bs| - 1 :: Without(bs, location)[i] == bs[if i < k then i else i + 1]
    {
      FirstAtIs(bs, location, k);
      WithoutTakesOne(bs, location, k);
    }
    forall other: uint16 | other != location
      ensures Found(Without(bs, location), other) == Found(bs, other)
    {
      OthersStay(bs, location, other);
    }
  }

  // The list and the free nodes

  ghost function Pointers(n: nat): (r: set<nat>)
    ensures |r| == n && forall p :: p in r <==> 1 <= p <= n
  {
    if n == 0 then {} else Pointers(n - 1) + {n}
  }

  ghost function FreeNodes(nodes: seq<Node>): (r: set<nat>)
    requires |nodes| == SLOTS + 1
    ensures forall p :: p in r <==> 1 <= p <= SLOTS && nodes[p].blink.location == 0
  {
    set p | p in Pointers(SLOTS) && nodes[p].blink.location == 0
  }

  ghost function Members(order: seq<nat>): (r: set<nat>)
    ensures forall p :: p in r <==> p in order
    decreases |order|
  {
    if order == [] then {} else
      assert order == order[..|order| - 1] + [order[|order| - 1]];
      Members(order[..|order| - 1]) + {order[|order| - 1]}
  }

  lemma {:induction false} CountMembers(order: seq<nat>)
    requires Distinct(order)
    ensures |Members(order)| == |order|
  {
    if order != [] {
      CountMembers(order[..|order| - 1]);
      assert order[|order| - 1] !in Members(order[..|order| - 1]);
    }
  }

  /** Nodes on the list and free nodes are always 2000 together. */
  lemma UsedAndFree(nodes: seq<Node>, head: nat, order: seq<nat>)
    requires Linked(nodes, head, order)
    ensures |order| + |FreeNodes(nodes)| == SLOTS
  {
    hide Pointers, Members, FreeNodes;
    CountMembers(order);
    var used, free := Members(order), FreeNodes(nodes);
    assert used + free == Pointers(SLOTS);
    assert used !! free;
  }

  /** No node is free exactly when the list has 2000 nodes. */
  lemma AllUsed(nodes: seq<Node>, head: nat, order: seq<nat>)
    requires Linked(nodes, head, order)
    ensures |order| == SLOTS <==> forall p | 1 <= p <= SLOTS :: nodes[p].blink.location != 0
  {
    hide Linked, Distinct;
    UsedAndFree(nodes, head, order);
    var free := FreeNodes(nodes);
    assert |free| == 0 <==> free == {};
    if p :| 1 <= p <= SLOTS && nodes[p].blink.location == 0 {
      assert p in free;
    }
  }

  // Adding at location 0

  /** What `mp1_ioctl_add` does to the nodes once it has the free node `p`. */
  function Insert(nodes: seq<Node>, head: nat, p: nat, b: Blink): (r: seq<Node>)
    requires p < |nodes|
    ensures |r| == |nodes|
  {
    nodes[p := Node(Fresh(b), head)]
  }

  lemma PrependDistinct(order: seq<nat>, p: nat)
    requires Distinct(order) && 1 <= p <= SLOTS && p !in order
    ensures Distinct([p] + order)
    ensures forall q :: q in [p] + order <==> q == p || q in order
    ensures forall i | 0 <= i < |order| + 1 ::
              && ([p] + order)[i] == (if i == 0 then p else order[i - 1])
              && Pointer([p] + order, i + 1) == Pointer(order, i)
  {
  }

  lemma InsertLinks(nodes: seq<Node>, head: nat, order: seq<nat>, p: nat, b: Blink)
    requires Linked(nodes, head, order) && 1 <= p <= SLOTS && nodes[p].blink.location == 0 && b.location != 0
    ensures Linked(Insert(nodes, head, p, b), p, [p] + order)
    ensures Blinks(Insert(nodes, head, p, b), [p] + order) == [Fresh(b)] + Blinks(nodes, order)
  {
    hide Distinct, Chained, Used, Insert, Blinks;
    NotUsed(nodes, order, p);
    PrependDistinct(order, p);
    InsertChained(nodes, head, order, p, b);
    InsertUsed(nodes, head, order, p, b);
    InsertBlinks(nodes, head, order, p, b);
  }

  lemma NotUsed(nodes: seq<Node>, order: seq<nat>, p: nat)
    requires |nodes| == SLOTS + 1 && Used(nodes, order) && 1 <= p <= SLOTS && nodes[p].blink.location == 0
    ensures p !in order
  {
  }

  lemma InsertBlinks(nodes: seq<Node>, head: nat, order: seq<nat>, p: nat, b: Blink)
    requires |nodes| == SLOTS + 1 && Distinct(order) && Distinct([p] + order) && p !in order && p <= SLOTS
    ensures Blinks(Insert(nodes, head, p, b), [p] + order) == [Fresh(b)] + Blinks(nodes, order)
  {
    hide Fresh;
    assert forall i | 0 <= i < |order| :: order[i] in order && order[i] != p;
  }

  lemma InsertUsed(nodes: seq<Node>, head: nat, order: seq<nat>, p: nat, b: Blink)
    requires |nodes| == SLOTS + 1 && Used(nodes, order) && 1 <= p <= SLOTS && b.location != 0
    requires forall q :: q in [p] + order <==> q == p || q in order
    ensures Used(Insert(nodes, head, p, b), [p] + order)
  {
  }

  lemma InsertChained(nodes: seq<Node>, head: nat, order: seq<nat>, p: nat, b: Blink)
    requires |nodes| == SLOTS + 1 && Distinct(order) && Chained(nodes, head, order) && 1 <= p <= SLOTS && p !in order
    ensures Distinct([p] + order) && Chained(Insert(nodes, head, p, b), p, [p] + order)
  {
    PrependDistinct(order, p);
    var all, after := [p] + order, Insert(nodes, head, p, b);
    forall i | 0 <= i < |all| ensures after[all[i]].next == Pointer(all, i + 1) {
      if i > 0 {
        assert all[i] == order[i - 1] != p && nodes[order[i - 1]].next == Pointer(order, i - 1 + 1);
      }
    }
  }

  /** The nodes form a list again exactly when the blink is not at location 0. */
  lemma InsertLinksIff(nodes: seq<Node>, head: nat, order: seq<nat>, p: nat, b: Blink)
    requires Linked(nodes, head, order) && 1 <= p <= SLOTS && nodes[p].blink.location == 0
    ensures (exists after :: Linked(Insert(nodes, head, p, b), p, after)) <==> b.location != 0
  {
    if b.location != 0 {
      InsertLinks(nodes, head, order, p, b);
    }
  }

  /** After two blinks at location 0 the second node is its own successor: it was taken for free. */
  lemma SecondAtZeroLoops(nodes: seq<Node>, head: nat, order: seq<nat>, p: nat, b: Blink)
    requires Linked(nodes, head, order) && b.location == 0
    requires 1 <= p <= SLOTS && p in FreeNodes(nodes) && forall q | 1 <= q < p :: q !in FreeNodes(nodes)
    ensures
      var once := Insert(nodes, head, p, b);
      && p in FreeNodes(once) && (forall q | 1 <= q < p :: q !in FreeNodes(once))
      && Insert(once, p, p, b)[p].next == p
  {
    hide Linked, Distinct;
    var once := Insert(nodes, head, p, b);
    assert forall q | 0 <= q <= SLOTS && q != p :: once[q] == nodes[q];
  }

  // Time

  function Flip(status: uint16): uint16 {
    if status % 2 == 1 then status - 1 else status + 1
  }

  /** A 16 bit number compared with 0 as a signed one. */
  predicate Positive(n: uint16) {
    0 < n < 0x8000
  }

  function Down(n: uint16): uint16 {
    (n - 1) % 0x1_0000
  }

  predicate Expires(b: Blink) {
    !Positive(Down(b.countdown))
  }

  function Shown(b: Blink): byte {
    if b.status % 2 == 1 then b.off else b.on
  }

  /** One tick of a blink. */
  function Tick(b: Blink): Blink {
    if !Expires(b) then b.(countdown := Down(b.countdown))
    else b.(countdown := if b.status % 2 == 1 then b.offLength else b.onLength, status := Flip(b.status))
  }

  function Ticks(b: Blink, n: nat): Blink {
    if n == 0 then b else Tick(Ticks(b, n - 1))
  }

  /** How many ticks a phase takes that starts with the countdown `length`: the countdown is compared as
      a signed number after it has been decremented. */
  function Duration(length: uint16): (r: nat)
    ensures r >= 1
  {
    if 1 <= length <= 0x8000 then length else 1
  }

  /** Within a phase a blink only counts down, and it expires at the last tick. */
  lemma {:induction false} WithinPhase(b: Blink, n: nat)
    requires n < Duration(b.countdown)
    ensures Ticks(b, n) == b.(countdown := b.countdown - n)
    ensures Expires(Ticks(b, n)) <==> n + 1 == Duration(b.countdown)
  {
    if n > 0 {
      WithinPhase(b, n - 1);
    }
  }

  /** The phase ends with the last of `countdown` ticks, and not before. */
  ghost predicate LastsAsSaid(b: Blink) {
    && b.countdown > 0 && Expires(Ticks(b, b.countdown - 1))
    && forall n: nat | n + 1 < b.countdown :: !Expires(Ticks(b, n))
  }

  /** A phase takes as many ticks as it says exactly when that is from 1 to 0x8000. Any other length
      makes it end at the first tick. */
  lemma PhaseLength(b: Blink)
    ensures LastsAsSaid(b) <==> 1 <= b.countdown <= 0x8000
    ensures !LastsAsSaid(b) ==> Expires(b)
  {
    assert Ticks(b, 0) == b;
    if 1 <= b.countdown <= 0x8000 {
      forall n: nat | n < b.countdown ensures Expires(Ticks(b, n)) <==> n + 1 == b.countdown {
        WithinPhase(b, n);
      }
    }
  }

  lemma {:induction false} TicksAdd(b: Blink, m: nat, n: nat)
    ensures Ticks(b, m + n) == Ticks(Ticks(b, m), n)
  {
    if n > 0 {
      TicksAdd(b, m, n - 1);
    }
  }

  /** A new blink shows its first character for the duration of `onLength`, and the other one for that of
      `offLength`, and then is as it was at first. */
  lemma BlinkPeriod(b: Blink)
    ensures
      var f, first, second := Fresh(b), Duration(b.onLength), Duration(b.offLength);
      var g := Ticks(f, first);
      && (forall n: nat | n < first :: Ticks(f, n).status == 1)
      && Expires(Ticks(f, first - 1)) && Shown(Ticks(f, first - 1)) == b.off
      && g == f.(status := 0, countdown := b.offLength)
      && (forall n: nat | n < second :: Ticks(g, n).status == 0)
      && Expires(Ticks(g, second - 1)) && Shown(Ticks(g, second - 1)) == b.on
      && Ticks(f, first + second) == f
  {
    var f, first, second := Fresh(b), Duration(b.onLength), Duration(b.offLength);
    var g := Ticks(f, first);
    forall n: nat | n < first ensures Ticks(f, n) == f.(countdown := b.onLength - n) {
      WithinPhase(f, n);
    }
    WithinPhase(f, first - 1);
    assert g == Tick(Ticks(f, first - 1));
    forall n: nat | n < second ensures Ticks(g, n) == g.(countdown := b.offLength - n) {
      WithinPhase(g, n);
    }
    WithinPhase(g, second - 1);
    TicksAdd(f, first, second);
    assert Ticks(g, second) == Tick(Ticks(g, second - 1));
  }

  /** What one blink leaves on the screen when it ticks. */
  function Draw(screen: seq<byte>, b: Blink): (r: seq<byte>)
    requires |screen| == CELLS && b.location < CELLS
    ensures |r| == CELLS
  {
    if Expires(b) then screen[b.location := Shown(b)] else screen
  }

  ghost predicate OnScreen(bs: seq<Blink>) {
    forall i | 0 <= i < |bs| :: bs[i].location < CELLS
  }

  /** What a tick of all blinks, in the order of the list, leaves on the screen. */
  ghost function Drawn(screen: seq<byte>, bs: seq<Blink>): (r: seq<byte>)
    requires |screen| == CELLS && OnScreen(bs)
    ensures |r| == CELLS
    decreases |bs|
  {
    if bs == [] then screen else
      var before := Drawn(screen, bs[..|bs| - 1]);
      Draw(before, bs[|bs| - 1])
  }

  /** The cell of a blink that expires shows the character of its next phase, unless a blink further
      down the list shares the cell and expires too; other cells stay as they are. */
  lemma {:induction false} DrawnAt(screen: seq<byte>, bs: seq<Blink>, i: nat, c: nat)
    requires |screen| == CELLS && OnScreen(bs)
    requires i <= |bs| && c < CELLS && forall j | i < j < |bs| :: bs[j].location != c || !Expires(bs[j])
    ensures i < |bs| && bs[i].location == c && Expires(bs[i]) ==> Drawn(screen, bs)[c] == Shown(bs[i])
    ensures (forall j | 0 <= j < |bs| :: bs[j].location != c || !Expires(bs[j])) ==> Drawn(screen, bs)[c] == screen[c]
  {
    hide Expires, Shown;
    if |bs| > 0 {
      var front := bs[..|bs| - 1];
      if i < |bs| {
        DrawnAt(screen, front, i, c);
      } else {
        DrawnAt(screen, front, |front|, c);
      }
    }
  }

  // Removing

  /** Takes node `order[k]` out of the list, and clears it. */
  ghost function Unlink(nodes: seq<Node>, order: seq<nat>, k: nat): seq<Node>
    requires |nodes| == SLOTS + 1 && Distinct(order) && k < |order|
  {
    var skipped :=
      if k == 0 then nodes
      else nodes[order[k - 1] := nodes[order[k - 1]].(next := nodes[order[k]].next)];
    skipped[order[k] := CLEARED]
  }

  lemma RemoveDistinct(order: seq<nat>, k: nat)
    requires Distinct(order) && k < |order|
    ensures
      var rest := order[..k] + order[k + 1..];
      && Distinct(rest) && (forall i | 0 <= i < |rest| :: rest[i] == if i < k then order[i] else order[i + 1])
      && forall q :: q in rest <==> q in order && q != order[k]
  {
    var rest := order[..k] + order[k + 1..];
    assert order == order[..k] + [order[k]] + order[k + 1..];
    forall q | q in rest ensures q in order && q != order[k] {
      var i :| 0 <= i < |rest| && rest[i] == q;
      assert i < k ==> q == order[i];
    }
  }

  lemma UnlinkLinks(nodes: seq<Node>, head: nat, order: seq<nat>, k: nat)
    requires Linked(nodes, head, order) && k < |order|
    ensures
      var first := if k == 0 then nodes[order[0]].next else head;
      Linked(Unlink(nodes, order, k), first, order[..k] + order[k + 1..])
  {
    RemoveDistinct(order, k);
    UnlinkChained(nodes, head, order, k);
    UnlinkUsed(nodes, head, order, k);
    hide Distinct, Chained, Used;
  }

  lemma UnlinkUsed(nodes: seq<Node>, head: nat, order: seq<nat>, k: nat)
    requires |nodes| == SLOTS + 1 && Distinct(order) && Used(nodes, order) && k < |order|
    ensures Used(Unlink(nodes, order, k), order[..k] + order[k + 1..])
  {
    RemoveDistinct(order, k);
    hide Distinct;
    var after := Unlink(nodes, order, k);
    assert forall p | 0 <= p <= SLOTS && p != order[k] :: after[p].blink == nodes[p].blink;
  }

  lemma RestPointer(order: seq<nat>, k: nat, i: nat)
    requires k < |order|
    ensures Pointer(order[..k] + order[k + 1..], i) == Pointer(order, if i < k then i else i + 1)
  {
  }

  lemma UnlinkChained(nodes: seq<Node>, head: nat, order: seq<nat>, k: nat)
    requires |nodes| == SLOTS + 1 && Distinct(order) && Chained(nodes, head, order) && k < |order|
    ensures Distinct(order[..k] + order[k + 1..])
    ensures
      var first := if k == 0 then nodes[order[0]].next else head;
      Chained(Unlink(nodes, order, k), first, order[..k] + order[k + 1..])
  {
    RemoveDistinct(order, k);
    var rest, after := order[..k] + order[k + 1..], Unlink(nodes, order, k);
    RestPointer(order, k, 0);
    forall i | 0 <= i < |rest| ensures after[rest[i]].next == Pointer(rest, i + 1) {
      UnlinkNext(nodes, order, k, i);
      RestPointer(order, k, i + 1);
    }
  }

  /** Where the nodes that stay in the list lead after node `order[k]` has been taken out. */
  lemma UnlinkNext(nodes: seq<Node>, order: seq<nat>, k: nat, i: nat)
    requires |nodes| == SLOTS + 1 && Distinct(order) && k < |order| && i + 1 < |order|
    requires forall j | 0 <= j < |order| :: nodes[order[j]].next == Pointer(order, j + 1)
    ensures
      var j := if i < k then i else i + 1;
      Unlink(nodes, order, k)[order[j]].next == Pointer(order, if i + 1 < k then i + 1 else i + 2)
  {
    hide Pointer;
    var j := if i < k then i else i + 1;
    assert order[j] != order[k] && (j != k - 1 && k > 0 ==> order[j] != order[k - 1]);
  }

  lemma UnlinkBlinks(nodes: seq<Node>, head: nat, order: seq<nat>, k: nat)
    requires |nodes| == SLOTS + 1 && Distinct(order) && k < |order|
    ensures Distinct(order[..k] + order[k + 1..])
    ensures
      var bs := Blinks(nodes, order);
      Blinks(Unlink(nodes, order, k), order[..k] + order[k + 1..]) == bs[..k] + bs[k + 1..]
  {
    RemoveDistinct(order, k);
  }

  /** `b` with the lengths and the phase of `a`. */
  function InPhase(b: Blink, a: Blink): Blink {
    b.(onLength := a.onLength, offLength := a.offLength, countdown := a.countdown, status := a.status)
  }

  /** Two blinks show the same characters at the same location. */
  predicate SameLook(a: Blink, b: Blink) {
    a.on == b.on && a.off == b.off && a.location == b.location
  }

  /** Two blinks that are in phase stay in phase. */
  lemma {:induction false} StayInPhase(a: Blink, b: Blink, n: nat)
    ensures Ticks(InPhase(b, a), n) == InPhase(b, Ticks(a, n))
  {
    if n > 0 {
      StayInPhase(a, b, n - 1);
    }
  }

  // Walking along the list

  lemma HeadIs(nodes: seq<Node>, head: nat, order: seq<nat>)
    requires Linked(nodes, head, order)
    ensures head == Pointer(order, 0) <= SLOTS && (head == NULL <==> order == [])
  {
  }

  /** A node on the list gets a new blink at the same location. */
  lemma Replace(nodes: seq<Node>, head: nat, order: seq<nat>, i: nat, b: Blink)
    requires Linked(nodes, head, order) && i < |order|
    requires 1 <= order[i] <= SLOTS && b.location == nodes[order[i]].blink.location
    ensures Linked(nodes[order[i] := nodes[order[i]].(blink := b)], head, order)
    ensures Blinks(nodes[order[i] := nodes[order[i]].(blink := b)], order) == Blinks(nodes, order)[i := b]
  {
    ReplaceLinks(nodes, head, order, i, b);
    hide Chained, Used;
  }

  lemma ReplaceLinks(nodes: seq<Node>, head: nat, order: seq<nat>, i: nat, b: Blink)
    requires Linked(nodes, head, order) && i < |order|
    requires 1 <= order[i] <= SLOTS && b.location == nodes[order[i]].blink.location
    ensures Linked(nodes[order[i] := nodes[order[i]].(blink := b)], head, order)
  {
    hide Pointer;
    var after := nodes[order[i] := nodes[order[i]].(blink := b)];
    assert forall p | 0 <= p <= SLOTS ::
             after[p].next == nodes[p].next && after[p].blink.location == nodes[p].blink.location;
  }

  lemma BlinkOf(nodes: seq<Node>, order: seq<nat>, i: nat)
    requires |nodes| == SLOTS + 1 && Distinct(order) && OnScreen(Blinks(nodes, order)) && i < |order|
    ensures 1 <= order[i] <= SLOTS
    ensures Blinks(nodes, order)[i] == nodes[order[i]].blink && nodes[order[i]].blink.location < CELLS
    ensures forall b: Blink | b.location == nodes[order[i]].blink.location :: OnScreen(Blinks(nodes, order)[i := b])
  {
  }

  lemma DrawnNone(screen: seq<byte>, bs: seq<Blink>)
    requires |screen| == CELLS
    ensures OnScreen(bs[..0]) && Drawn(screen, bs[..0]) == screen
  {
  }

  lemma DrawnNext(screen: seq<byte>, bs: seq<Blink>, i: nat)
    requires |screen| == CELLS && OnScreen(bs) && i < |bs|
    ensures OnScreen(bs[..i]) && OnScreen(bs[..i + 1]) && bs[i].location < CELLS
    ensures Drawn(screen, bs[..i + 1]) == Draw(Drawn(screen, bs[..i]), bs[i])
  {
    assert bs[..i + 1][..i] == bs[..i];
  }

  lemma Neighbours(order: seq<nat>, k: nat)
    requires Distinct(order) && k < |order|
    ensures 1 <= order[k] <= SLOTS && (k > 0 ==> 1 <= order[k - 1] <= SLOTS && order[k - 1] != order[k])
  {
  }

  lemma StillOnScreen(bs: seq<Blink>, k: nat)
    requires OnScreen(bs) && k < |bs|
    ensures OnScreen(bs[..k] + bs[k + 1..])
  {
  }

  lemma NextIs(nodes: seq<Node>, head: nat, order: seq<nat>, i: nat)
    requires Linked(nodes, head, order) && i < |order|
    ensures order[i] <= SLOTS && nodes[order[i]].next == Pointer(order, i + 1) <= SLOTS
    ensures Pointer(order, i + 1) == NULL <==> i + 1 == |order|
  {
  }

  lemma {:induction false} FirstAtIs(bs: seq<Blink>, location: uint16, i: nat)
    requires i <= |bs| && forall j | 0 <= j < i :: bs[j].location != location
    requires i < |bs| ==> bs[i].location == location
    ensures FirstAt(bs, location) == i
  {
  }

  // The program

  class BlinkList {
    // The nodes are at indices 1 to 2000
    const nodes: array<Node>
    var head: nat
    const screen: array<byte>
    ghost var order: seq<nat>

    ghost predicate Valid()
      reads this, nodes
    {
      screen.Length == CELLS && Linked(nodes[..], head, order) && OnScreen(Blinks(nodes[..], order))
    }

    ghost function Bs(): (r: seq<Blink>)
      requires Valid()
      reads this, nodes
    {
      Blinks(nodes[..], order)
    }

    constructor (screen: array<byte>)
      requires screen.Length == CELLS
      ensures Valid() && fresh(nodes) && this.screen == screen && Bs() == []
    {
      nodes := new Node[SLOTS + 1](_ => CLEARED);
      head, order := NULL, [];
      this.screen := screen;
    }

    /** `mp1_malloc`: the first free node, or NULL. */
    method Malloc() returns (p: nat)
      requires Valid()
      ensures p <= SLOTS && forall q | 1 <= q < p :: nodes[q].blink.location != 0
      ensures p == NULL <==> |order| == SLOTS
      ensures p != NULL ==> nodes[p].blink.location == 0
    {
      hide Linked, OnScreen;
      AllUsed(nodes[..], head, order);
      var i := 1;
      while i <= SLOTS
        invariant 1 <= i <= SLOTS + 1
        invariant forall q | 1 <= q < i :: nodes[q].blink.location != 0
      {
        if nodes[i].blink.location == 0 {
          return i;
        }
        i := i + 1;
      }
      return NULL;
    }

    /** `mp1_ioctl_add`. At location 0 the nodes no longer form a list afterwards. */
    method Add(b: Blink) returns (r: int)
      requires Valid()
      modifies this`head, this`order, nodes, screen
      ensures r == if b.location >= CELLS || |old(order)| == SLOTS then FAIL else 0
      ensures r == FAIL ==> Valid() && Bs() == old(Bs()) && screen[..] == old(screen[..])
      ensures r == 0 && b.location != 0 ==> Valid() && Bs() == [Fresh(b)] + old(Bs())
      ensures r == 0 && b.location == 0 ==> forall any :: !Linked(nodes[..], head, any)
      ensures r == 0 ==> screen[..] == old(screen[..])[b.location := b.on]
    {
      if b.location >= CELLS {
        return FAIL;
      }
      var p := Malloc();
      if p == NULL {
        return FAIL;
      }
      InsertLinksIff(nodes[..], head, order, p, b);
      ghost var before, first := nodes[..], head;
      nodes[p] := Node(Fresh(b), nodes[p].next);
      nodes[p] := nodes[p].(next := head);
      head := p;
      assert nodes[..] == Insert(before, first, p, b);
      if b.location != 0 {
        InsertLinks(before, first, order, p, b);
        order := [p] + order;
      }
      screen[b.location] := b.on;
      r := 0;
    }

    /** `mp1_find_helper`: the node of the blink at `location` that was added last, or NULL. */
    method FindHelper(location: uint16) returns (p: nat)
      requires Valid()
      ensures p == Pointer(order, FirstAt(Bs(), location))
      ensures p != NULL <==> FirstAt(Bs(), location) < |order|
    {
      hide Linked, OnScreen;
      p := head;
      ghost var i := 0;
      HeadIs(nodes[..], head, order);
      while p != NULL && nodes[p].blink.location != location
        invariant 0 <= i <= |order| && p == Pointer(order, i) && p <= SLOTS
        invariant p == NULL <==> i == |order|
        invariant forall j | 0 <= j < i :: Bs()[j].location != location
        decreases |order| - i
      {
        NextIs(nodes[..], head, order, i);
        p := nodes[p].next;
        i := i + 1;
      }
      FirstAtIs(Bs(), location, i);
    }

    /** `mp1_ioctl_find`. */
    method Find(location: uint16) returns (r: Option<Blink>)
      requires Valid()
      ensures r == Found(Bs(), location)
      ensures Tells(Bs(), location, r)
    {
      hide Tells;
      FoundTells(Bs(), location);
      var p := FindHelper(location);
      if p == NULL {
        return None;
      }
      r := Some(nodes[p].blink);
    }

    /** The search of `mp1_ioctl_remove` for what points to the node `p`, NULL if it is `head`. */
    method FindPrevious(p: nat, ghost k: nat) returns (previous: nat)
      requires Valid() && k < |order| && p == order[k]
      ensures previous == if k == 0 then NULL else order[k - 1]
    {
      hide Linked, OnScreen;
      HeadIs(nodes[..], head, order);
      previous := NULL;
      var target := head;
      ghost var i := 0;
      while target != p
        invariant 0 <= i <= k && target == Pointer(order, i)
        invariant previous == if i == 0 then NULL else order[i - 1]
        decreases k - i
      {
        NextIs(nodes[..], head, order, i);
        previous := target;
        target := nodes[target].next;
        i := i + 1;
      }
    }

    /** `mp1_ioctl_remove`. */
    method Remove(location: uint16) returns (r: int)
      requires Valid()
      modifies this`head, this`order, nodes
      ensures Valid() && Bs() == Without(old(Bs()), location)
      ensures r == if FirstAt(old(Bs()), location) == |old(Bs())| then FAIL else 0
      ensures forall k: nat | IsFirst(old(Bs()), location, k) ::
                && r == 0 && |Bs()| == |old(Bs())| - 1
                && forall i | 0 <= i < |Bs()| :: Bs()[i] == old(Bs())[if i < k then i else i + 1]
      ensures forall other: uint16 | other != location :: Found(Bs(), other) == Found(old(Bs()), other)
      ensures FirstAt(old(Bs()), location) == |old(Bs())| ==> nodes[..] == old(nodes[..]) && head == old(head)
    {
      hide Linked, OnScreen, Distinct, Blinks, FirstAt, Without, IsFirst, Found;
      RemovalLaws(Bs(), location);
      var p := FindHelper(location);
      if p == NULL {
        return FAIL;
      }
      ghost var k := FirstAt(Bs(), location);
      var previous := FindPrevious(p, k);
      Cut(p, previous, k);
      r := 0;
    }

    /** Takes the node `p` out of the list, and frees it. */
    method Cut(p: nat, previous: nat, ghost k: nat)
      requires Valid() && k < |order| && p == order[k] && previous == if k == 0 then NULL else order[k - 1]
      modifies this`head, this`order, nodes
      ensures Valid() && Bs() == old(Bs())[..k] + old(Bs())[k + 1..]
    {
      hide Linked, Blinks, OnScreen, Distinct;
      HeadIs(nodes[..], head, order);
      Neighbours(order, k);
      UnlinkLinks(nodes[..], head, order, k);
      UnlinkBlinks(nodes[..], head, order, k);
      StillOnScreen(Bs(), k);
      ghost var before := nodes[..];
      if previous == NULL {
        head := nodes[p].next;
      } else {
        nodes[previous] := nodes[previous].(next := nodes[p].next);
      }
      nodes[p] := CLEARED;
      assert nodes[..] == Unlink(before, order, k);
      order := order[..k] + order[k + 1..];
    }

    /** One turn of the loop of `mp1_rtc_tasklet`. */
    method TickNode(p: nat, ghost i: nat)
      requires Valid() && i < |order| && p == order[i]
      modifies nodes, screen
      ensures Valid() && Bs() == old(Bs())[i := Tick(old(Bs())[i])]
      ensures old(Bs())[i].location < CELLS && screen[..] == Draw(old(screen[..]), old(Bs())[i])
    {
      hide Linked, OnScreen, Distinct, Blinks;
      BlinkOf(nodes[..], order, i);
      ghost var before := nodes[..];
      var b := nodes[p].blink;
      Replace(before, head, order, i, Tick(b));
      nodes[p] := nodes[p].(blink := b.(countdown := Down(nodes[p].blink.countdown)));
      if !Positive(nodes[p].blink.countdown) {
        if nodes[p].blink.status % 2 == 1 {
          screen[nodes[p].blink.location] := nodes[p].blink.off;
          nodes[p] := nodes[p].(blink := nodes[p].blink.(countdown := nodes[p].blink.offLength));
        } else {
          screen[nodes[p].blink.location] := nodes[p].blink.on;
          nodes[p] := nodes[p].(blink := nodes[p].blink.(countdown := nodes[p].blink.onLength));
        }
        nodes[p] := nodes[p].(blink := nodes[p].blink.(status := Flip(nodes[p].blink.status)));
      }
      assert nodes[..] == before[p := before[p].(blink := Tick(b))];
    }

    /** `mp1_rtc_tasklet`: every blink ticks once, in the order of the list. */
    method Tasklet()
      requires Valid()
      modifies nodes, screen
      ensures Valid() && |Bs()| == |old(Bs())| && forall i | 0 <= i < |Bs()| :: Bs()[i] == Tick(old(Bs())[i])
      ensures screen[..] == Drawn(old(screen[..]), old(Bs()))
    {
      hide Linked, OnScreen, Distinct, Tick, Drawn, Draw, Blinks;
      HeadIs(nodes[..], head, order);
      ghost var bs := Bs();
      DrawnNone(screen[..], bs);
      var p := head;
      ghost var i := 0;
      while p != NULL
        invariant 0 <= i <= |order| && p == Pointer(order, i)
        invariant p == NULL <==> i == |order|
        invariant Valid()
        invariant forall j | 0 <= j < |order| :: Bs()[j] == if j < i then Tick(bs[j]) else bs[j]
        invariant OnScreen(bs[..i]) && screen[..] == Drawn(old(screen[..]), bs[..i])
        decreases |order| - i
      {
        NextIs(nodes[..], head, order, i);
        DrawnNext(old(screen[..]), bs, i);
        TickNode(p, i);
        NextIs(nodes[..], head, order, i);
        p := nodes[p].next;
        i := i + 1;
      }
      assert bs[..|bs|] == bs;
    }

    /** `mp1_ioctl_sync`: the blink at `to` gets the lengths and the phase of the one at `from`. The
        character drawn is always the second one: the conditional move after it never happens. */
    method Sync(from: uint16, to: uint16) returns (r: int)
      requires Valid()
      modifies nodes, screen
      ensures Valid() && |Bs()| == |old(Bs())|
      ensures
        var bs := old(Bs());
        var i, j := FirstAt(bs, from), FirstAt(bs, to);
        && r == (if i == |bs| || j == |bs| then FAIL else 0)
        && Bs() == (if r == FAIL then bs else bs[j := InPhase(bs[j], bs[i])])
        && screen[..] == if r == FAIL then old(screen[..]) else old(screen[..])[to := bs[j].off]
      ensures forall i | 0 <= i < |Bs()| :: SameLook(Bs()[i], old(Bs())[i])
    {
      hide Linked, OnScreen, Distinct, Blinks, FirstAt;
      var p := FindHelper(from);
      if p == NULL {
        return FAIL;
      }
      var q := FindHelper(to);
      if q == NULL {
        return FAIL;
      }
      ghost var i, j := FirstAt(Bs(), from), FirstAt(Bs(), to);
      BlinkOf(nodes[..], order, i);
      BlinkOf(nodes[..], order, j);
      Replace(nodes[..], head, order, j, InPhase(nodes[q].blink, nodes[p].blink));
      nodes[q] := nodes[q].(blink := InPhase(nodes[q].blink, nodes[p].blink));
      screen[nodes[q].blink.location] := nodes[q].blink.off;
      r := 0;
    }
  }
}
