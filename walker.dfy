/**
 * The tree walker: from a conversation's `current_node`, follow `parent` links
 * through the node mapping, record each qualifying message, and return the
 * recorded messages root first.
 *
 * The walk is specified by `WalkWithin`, which takes at most `fuel` steps and
 * lists the messages root first directly; the method builds them leaf first and
 * reverses them, as the program does. A parent chain that returns to a node
 * it has already visited would make the program loop forever; the method
 * requires the walk to stop within `|mapping| + 1` steps, and
 * `HaltsWithinMappingSize` shows that every walk that stops at all does so.
 */
module Walker {
  import opened Wrappers
  import opened Archive
  import opened Messages

  /** `mapping.get(id, {})`: a missing id reads as a node without message or parent. */
  function LookUp(m: map<NodeId, Node>, id: NodeId): Node {
    if id in m then m[id] else Node(None, None)
  }

  /** The id the walk moves to from `id` (absent at the root). */
  function Parent(m: map<NodeId, Node>, id: NodeId): Option<NodeId> {
    LookUp(m, id).parent
  }

  /** `while current_node:` goes on while the current id is present and non-empty. */
  predicate Live(p: Option<NodeId>) {
    p.Some? && p.value != ""
  }

  /** What the walk records when it visits `id`, if anything. */
  function Recorded(m: map<NodeId, Node>, id: NodeId): Option<NormalizedMessage> {
    var node := LookUp(m, id);
    if node.message.Some? && Qualifies(node.message.value) then Some(Normalize(node.message.value)) else None
  }

  /** The walk from `p` stops within `fuel` steps. */
  predicate Halts(m: map<NodeId, Node>, p: Option<NodeId>, fuel: nat)
    decreases fuel
  {
    !Live(p) || (fuel > 0 && Halts(m, Parent(m, p.value), fuel - 1))
  }

  /** The ids visited in the first `fuel` steps from `p`, leaf first. */
  function Chain(m: map<NodeId, Node>, p: Option<NodeId>, fuel: nat): seq<NodeId>
    decreases fuel
  {
    if fuel == 0 || !Live(p) then [] else [p.value] + Chain(m, Parent(m, p.value), fuel - 1)
  }

  /** The messages recorded in the first `fuel` steps from `p`, root first:
      whatever is recorded above a node comes before what it records itself. */
  function WalkWithin(m: map<NodeId, Node>, p: Option<NodeId>, fuel: nat): seq<NormalizedMessage>
    decreases fuel
  {
    if fuel == 0 || !Live(p) then []
    else
      var above := WalkWithin(m, Parent(m, p.value), fuel - 1);
      match Recorded(m, p.value)
      case Some(x) => above + [x]
      case None => above
  }

  /** The step budget that every terminating walk fits in. */
  function Budget(m: map<NodeId, Node>): nat {
    |m| + 1
  }

  /** The messages of the active branch ending at `p`, root first. */
  function Walk(m: map<NodeId, Node>, p: Option<NodeId>): seq<NormalizedMessage> {
    WalkWithin(m, p, Budget(m))
  }

  /** Python's `s[::-1]`. */
  function Reverse<T>(s: seq<T>): (r: seq<T>)
    ensures |r| == |s|
    ensures forall i :: 0 <= i < |s| ==> r[i] == s[|s| - 1 - i]
  {
    if s == [] then [] else Reverse(s[1..]) + [s[0]]
  }

  lemma ReverseSnoc<T>(s: seq<T>, x: T)
    ensures Reverse(s + [x]) == [x] + Reverse(s)
  {
  }

  /** A node records a message exactly when it is in the mapping, holds a
      message, and that message's first text part is non-empty; the record
      carries the display author and that first part. */
  lemma RecordedIff(m: map<NodeId, Node>, id: NodeId)
    ensures Recorded(m, id).Some? <==>
      && id in m
      && m[id].message.Some?
      && |ExtractMessageParts(m[id].message.value)| > 0
      && ExtractMessageParts(m[id].message.value)[0] != ""
    ensures Recorded(m, id).Some? ==>
      && Recorded(m, id).value.text == ExtractMessageParts(m[id].message.value)[0]
      && Recorded(m, id).value.author == AuthorName(m[id].message.value)
      && Recorded(m, id).value.createTime == m[id].message.value.createTime.GetOr(0)
      && Recorded(m, id).value.updateTime == m[id].message.value.updateTime.GetOr(0)
  {
    if id in m && m[id].message.Some? {
      AuthorNameNeverSystem(m[id].message.value);
    }
  }

  /** More budget changes nothing once the walk has stopped. */
  lemma {:induction false} WithinMonotone(m: map<NodeId, Node>, p: Option<NodeId>, f: nat, g: nat)
    requires Halts(m, p, f) && f <= g
    ensures Halts(m, p, g)
    ensures Chain(m, p, g) == Chain(m, p, f)
    ensures WalkWithin(m, p, g) == WalkWithin(m, p, f)
    decreases f
  {
    if Live(p) {
      WithinMonotone(m, Parent(m, p.value), f - 1, g - 1);
    }
  }

  /** Where the walk stops at once: an absent or empty `current_node`, or an
      id the mapping does not hold (its lookup has no parent). */
  lemma WalkBoundaries(m: map<NodeId, Node>, p: Option<NodeId>)
    ensures !Live(p) ==> Walk(m, p) == []
    ensures Live(p) && p.value !in m ==> Walk(m, p) == [] && Chain(m, p, Budget(m)) == [p.value]
  {
    if Live(p) && p.value !in m {
      var b := Budget(m);
      assert Parent(m, p.value) == None;
      assert Chain(m, p, b) == [p.value] + Chain(m, None, b - 1);
      assert WalkWithin(m, p, b) == WalkWithin(m, None, b - 1);
    }
  }

  /** One step of a terminating walk: everything recorded from the parent on
      comes first, then what this node records, if anything. A node without a
      message, or with one that does not qualify, adds nothing and the walk
      goes on to its parent. */
  lemma WalkStep(m: map<NodeId, Node>, id: NodeId)
    requires id != "" && Halts(m, Some(id), Budget(m))
    ensures Halts(m, Parent(m, id), Budget(m))
    ensures Walk(m, Some(id)) ==
      Walk(m, Parent(m, id)) + (if Recorded(m, id).Some? then [Recorded(m, id).value] else [])
  {
    WithinMonotone(m, Parent(m, id), Budget(m) - 1, Budget(m));
  }

  /** Every recorded message comes from a node on the parent chain, and there
      are no more of them than nodes on the chain. */
  lemma {:induction false} WalkFromChain(m: map<NodeId, Node>, p: Option<NodeId>, fuel: nat)
    ensures |WalkWithin(m, p, fuel)| <= |Chain(m, p, fuel)|
    ensures forall x :: x in WalkWithin(m, p, fuel) ==>
      exists id :: id in Chain(m, p, fuel) && Recorded(m, id) == Some(x)
    decreases fuel
  {
    if fuel > 0 && Live(p) {
      WalkFromChain(m, Parent(m, p.value), fuel - 1);
    }
  }

  /** The walk reads the mapping only at the ids on its chain. */
  lemma {:induction false} OffChainIgnored(m: map<NodeId, Node>, m': map<NodeId, Node>, p: Option<NodeId>, fuel: nat)
    requires forall id :: id in Chain(m, p, fuel) ==> LookUp(m, id) == LookUp(m', id)
    ensures Chain(m', p, fuel) == Chain(m, p, fuel)
    ensures WalkWithin(m', p, fuel) == WalkWithin(m, p, fuel)
    ensures Halts(m', p, fuel) <==> Halts(m, p, fuel)
    decreases fuel
  {
    if fuel > 0 && Live(p) {
      assert p.value in Chain(m, p, fuel);
      OffChainIgnored(m, m', Parent(m, p.value), fuel - 1);
    }
  }

  /** Abandoned branches never appear: adding or replacing a node that is not
      on the chain from `p` leaves the walk from `p` as it was. */
  lemma AbandonedBranchIgnored(m: map<NodeId, Node>, p: Option<NodeId>, id: NodeId, node: Node)
    requires Halts(m, p, Budget(m))
    requires id !in Chain(m, p, Budget(m))
    ensures Halts(m[id := node], p, Budget(m[id := node]))
    ensures Walk(m[id := node], p) == Walk(m, p)
  {
    var m' := m[id := node];
    OffChainIgnored(m, m', p, Budget(m));
    assert m'.Keys == m.Keys + {id};
    WithinMonotone(m', p, Budget(m), Budget(m'));
  }

  /** The current id after `k` steps from `p`; a walk that has stopped stays put. */
  function Pos(m: map<NodeId, Node>, p: Option<NodeId>, k: nat): Option<NodeId>
    decreases k
  {
    if k == 0 || !Live(p) then p else Pos(m, Parent(m, p.value), k - 1)
  }

  lemma {:induction false} HaltsIffStopped(m: map<NodeId, Node>, p: Option<NodeId>, n: nat)
    ensures Halts(m, p, n) <==> !Live(Pos(m, p, n))
    decreases n
  {
    if n > 0 && Live(p) {
      HaltsIffStopped(m, Parent(m, p.value), n - 1);
    }
  }

  lemma {:induction false} StoppedStays(m: map<NodeId, Node>, p: Option<NodeId>, k: nat)
    requires !Live(p)
    ensures Pos(m, p, k) == p
  {
  }

  lemma {:induction false} PosAdd(m: map<NodeId, Node>, p: Option<NodeId>, a: nat, b: nat)
    ensures Pos(m, p, a + b) == Pos(m, Pos(m, p, a), b)
    decreases a
  {
    if a > 0 {
      if Live(p) {
        PosAdd(m, Parent(m, p.value), a - 1, b);
      } else {
        StoppedStays(m, p, a + b);
        StoppedStays(m, p, b);
      }
    }
  }

  /** A walk that comes back to where it was never stops. */
  lemma {:induction false} CycleNeverHalts(m: map<NodeId, Node>, p: Option<NodeId>, k: nat, n: nat)
    requires Live(p) && k >= 1 && Pos(m, p, k) == p
    ensures !Halts(m, p, n)
    decreases n
  {
    if Halts(m, p, n) {
      HaltsIffStopped(m, p, n);
      if n >= k {
        PosAdd(m, p, k, n - k);
        HaltsIffStopped(m, p, n - k);
        CycleNeverHalts(m, p, k, n - k);
      } else {
        PosAdd(m, p, n, k - n);
      }
    }
  }

  /** Wherever a stopping walk has got to, the walk from there stops too. */
  lemma HaltsShift(m: map<NodeId, Node>, p: Option<NodeId>, n: nat, j: nat)
    requires Halts(m, p, n)
    ensures Halts(m, Pos(m, p, j), n)
  {
    HaltsIffStopped(m, p, n);
    PosAdd(m, p, j, n);
    PosAdd(m, p, n, j);
    StoppedStays(m, Pos(m, p, n), j);
    HaltsIffStopped(m, Pos(m, p, j), n);
  }

  /** A walk that comes back to any id it has visited never stops. */
  lemma RevisitNeverHalts(m: map<NodeId, Node>, p: Option<NodeId>, i: nat, j: nat, n: nat)
    requires i < j && Live(Pos(m, p, i)) && Pos(m, p, j) == Pos(m, p, i)
    ensures !Halts(m, p, n)
  {
    if Halts(m, p, n) {
      var q := Pos(m, p, i);
      HaltsShift(m, p, n, i);
      PosAdd(m, p, i, j - i);
      CycleNeverHalts(m, q, j - i, n);
    }
  }

  /** Some positive number of steps lead from `source` to `target`. */
  ghost predicate Reaches(m: map<NodeId, Node>, source: Option<NodeId>, target: Option<NodeId>) {
    exists k: nat :: 1 <= k && Pos(m, source, k) == target
  }

  /** A stopping walk that started from the nodes in `visited` and has reached
      `p` never visits them again, so it stops within one step more than the
      number of mapped nodes it has not visited yet. */
  lemma {:induction false} HaltsOutside(m: map<NodeId, Node>, p: Option<NodeId>, n: nat, visited: set<NodeId>)
    requires Halts(m, p, n)
    requires visited <= m.Keys
    requires forall v :: v in visited ==> Reaches(m, Some(v), p)
    ensures Halts(m, p, |m.Keys - visited| + 1)
    decreases m.Keys - visited
  {
    if !Live(p) {
      return;
    }
    var id := p.value;
    if id !in m {
      return;
    }
    if id in visited {
      var k: nat :| 1 <= k && Pos(m, Some(id), k) == p;
      CycleNeverHalts(m, p, k, n);
      assert false;
    }
    var next := visited + {id};
    forall v | v in next
      ensures Reaches(m, Some(v), Parent(m, id))
    {
      if v == id {
        assert Pos(m, Some(v), 1) == Parent(m, id);
      } else {
        var k: nat :| 1 <= k && Pos(m, Some(v), k) == p;
        PosAdd(m, Some(v), k, 1);
        assert Pos(m, Some(v), k + 1) == Parent(m, id);
      }
    }
    assert m.Keys - next == (m.Keys - visited) - {id};
    HaltsOutside(m, Parent(m, id), n - 1, next);
  }

  /** Every walk that stops at all stops within `Budget(m)` steps, so the
      precondition of `GetConversationMessages` excludes only the parent
      chains on which the program would loop forever. */
  lemma HaltsWithinMappingSize(m: map<NodeId, Node>, p: Option<NodeId>, n: nat)
    requires Halts(m, p, n)
    ensures Halts(m, p, Budget(m))
  {
    var none: set<NodeId> := {};
    assert m.Keys - none == m.Keys;
    assert |m.Keys| == |m|;
    HaltsOutside(m, p, n, none);
  }

  /** `get_conversation_messages`. */
  method GetConversationMessages(conversation: Conversation) returns (messages: seq<NormalizedMessage>)
    requires Halts(conversation.mapping, conversation.currentNode, Budget(conversation.mapping))
    ensures messages == Walk(conversation.mapping, conversation.currentNode)
  {
    var acc: seq<NormalizedMessage> := [];
    var current := conversation.currentNode;
    var mapping := conversation.mapping;
    ghost var fuel := Budget(mapping);
    while current.Some? && current.value != ""
      invariant Halts(mapping, current, fuel)
      invariant Walk(mapping, conversation.currentNode) == WalkWithin(mapping, current, fuel) + Reverse(acc)
      decreases fuel
    {
      var node := if current.value in mapping then mapping[current.value] else Node(None, None);
      if node.message.None? {
        current := node.parent;
        fuel := fuel - 1;
        continue;
      }
      var message := node.message.value;
      var parts := ExtractMessageParts(message);
      var author := AuthorName(message);
      if |parts| > 0 && parts[0] != "" && (author != "system" || message.isUserSystemMessage) {
        var entry := NormalizedMessage(author, parts[0], message.createTime.GetOr(0), message.updateTime.GetOr(0));
        ReverseSnoc(acc, entry);
        acc := acc + [entry];
      }
      current := node.parent;
      fuel := fuel - 1;
    }
    messages := Reverse(acc);
  }
}
