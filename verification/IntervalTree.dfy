/** The interval tree: pointer descent, in-place linking, the in-order walk and the teardown loop.

    Nodes live in an explicit heap of cells addressed by pointers, 0 being NULL, so that linking is an
    update of one pointer field. The red-black fix-up is code of the kernel, not of this module: it is
    modelled as an arbitrary sequence of rotations, so every result holds whatever it does. */
module IntervalTree {

  type Ptr = int

  datatype Cell = Cell(start: nat, end: nat, left: Ptr, right: Ptr)
  datatype Interval = Interval(start: nat, end: nat)
  datatype Result = Inserted | EEXIST | ENOMEM

  /** The address of a child pointer: `struct rb_node **link`. */
  datatype Link = RootLink | LeftOf(p: Ptr) | RightOf(p: Ptr)

  /** The shape of a subtree, by the pointers of its nodes. */
  datatype Tree = Nil | Node(left: Tree, ptr: Ptr, right: Tree)

  /** The shape of everything around a subtree, from the inside out. */
  datatype Ctx = Top | InLeft(up: Ctx, ptr: Ptr, right: Tree) | InRight(up: Ctx, left: Tree, ptr: Ptr)

  // ---------------------------------------------------------------- shapes

  ghost function InOrder(t: Tree): seq<Ptr> {
    match t
    case Nil => []
    case Node(l, p, r) => InOrder(l) + [p] + InOrder(r)
  }

  ghost function Ptrs(t: Tree): set<Ptr> {
    match t
    case Nil => {}
    case Node(l, p, r) => Ptrs(l) + {p} + Ptrs(r)
  }

  /** No pointer occurs twice. */
  ghost predicate Proper(t: Tree) {
    match t
    case Nil => true
    case Node(l, p, r) =>
      Proper(l) && Proper(r) && p !in Ptrs(l) && p !in Ptrs(r) && Ptrs(l) !! Ptrs(r)
  }

  /** From pointer `p` the heap holds exactly the shape `t`. */
  ghost predicate Shape(h: map<Ptr, Cell>, p: Ptr, t: Tree)
    decreases t
  {
    match t
    case Nil => p == 0
    case Node(l, q, r) => p == q && p != 0 && p in h && Shape(h, h[p].left, l) && Shape(h, h[p].right, r)
  }

  ghost function Plug(c: Ctx, t: Tree): Tree
    decreases c
  {
    match c
    case Top => t
    case InLeft(up, p, r) => Plug(up, Node(t, p, r))
    case InRight(up, l, p) => Plug(up, Node(l, p, t))
  }

  ghost function CtxPtrs(c: Ctx): set<Ptr> {
    match c
    case Top => {}
    case InLeft(up, p, r) => CtxPtrs(up) + {p} + Ptrs(r)
    case InRight(up, l, p) => CtxPtrs(up) + {p} + Ptrs(l)
  }

  ghost predicate CtxProper(c: Ctx) {
    match c
    case Top => true
    case InLeft(up, p, r) =>
      CtxProper(up) && Proper(r) && p !in CtxPtrs(up) && p !in Ptrs(r) && CtxPtrs(up) !! Ptrs(r)
    case InRight(up, l, p) =>
      CtxProper(up) && Proper(l) && p !in CtxPtrs(up) && p !in Ptrs(l) && CtxPtrs(up) !! Ptrs(l)
  }

  /** The heap holds the surroundings `c` of a subtree whose pointer is `hole`. */
  ghost predicate CtxShape(h: map<Ptr, Cell>, root: Ptr, c: Ctx, hole: Ptr)
    decreases c
  {
    match c
    case Top => root == hole
    case InLeft(up, p, r) =>
      p != 0 && p in h && h[p].left == hole && Shape(h, h[p].right, r) && CtxShape(h, root, up, p)
    case InRight(up, l, p) =>
      p != 0 && p in h && h[p].right == hole && Shape(h, h[p].left, l) && CtxShape(h, root, up, p)
  }

  /** The nodes before and after the subtree in the in-order walk. */
  ghost function Before(c: Ctx): seq<Ptr> {
    match c
    case Top => []
    case InLeft(up, _, _) => Before(up)
    case InRight(up, l, p) => Before(up) + InOrder(l) + [p]
  }

  ghost function After(c: Ctx): seq<Ptr> {
    match c
    case Top => []
    case InLeft(up, p, r) => [p] + InOrder(r) + After(up)
    case InRight(up, _, _) => After(up)
  }

  ghost function LinkOf(c: Ctx): Link {
    match c
    case Top => RootLink
    case InLeft(_, p, _) => LeftOf(p)
    case InRight(_, _, p) => RightOf(p)
  }

  lemma {:induction false} PlugInOrder(c: Ctx, t: Tree)
    ensures InOrder(Plug(c, t)) == Before(c) + InOrder(t) + After(c)
    decreases c
  {
    match c
    case Top =>
    case InLeft(up, p, r) => PlugInOrder(up, Node(t, p, r));
    case InRight(up, l, p) => PlugInOrder(up, Node(l, p, t));
  }

  lemma {:induction false} PlugShape(h: map<Ptr, Cell>, root: Ptr, c: Ctx, x: Ptr, t: Tree)
    requires CtxShape(h, root, c, x) && Shape(h, x, t)
    ensures Shape(h, root, Plug(c, t))
    decreases c
  {
    match c
    case Top =>
    case InLeft(up, p, r) => PlugShape(h, root, up, p, Node(t, p, r));
    case InRight(up, l, p) => PlugShape(h, root, up, p, Node(l, p, t));
  }

  lemma {:induction false} PlugProper(c: Ctx, t: Tree)
    requires CtxProper(c) && Proper(t) && CtxPtrs(c) !! Ptrs(t)
    ensures Proper(Plug(c, t)) && Ptrs(Plug(c, t)) == CtxPtrs(c) + Ptrs(t)
    decreases c
  {
    match c
    case Top =>
    case InLeft(up, p, r) => PlugProper(up, Node(t, p, r));
    case InRight(up, l, p) => PlugProper(up, Node(l, p, t));
  }

  /** The two heaps agree on a set of nodes. */
  ghost predicate Agree(h: map<Ptr, Cell>, h': map<Ptr, Cell>, ps: set<Ptr>) {
    forall p :: p in ps && p in h ==> p in h' && h'[p] == h[p]
  }

  lemma {:induction false} ShapeFrame(h: map<Ptr, Cell>, h': map<Ptr, Cell>, p: Ptr, t: Tree)
    requires Shape(h, p, t) && Agree(h, h', Ptrs(t))
    ensures Shape(h', p, t)
    decreases t
  {
    if t.Nil? {
    } else {
      ShapeFrame(h, h', h[p].left, t.left);
      ShapeFrame(h, h', h[p].right, t.right);
    }
  }

  lemma {:induction false} CtxFrame(h: map<Ptr, Cell>, h': map<Ptr, Cell>, root: Ptr, c: Ctx, hole: Ptr)
    requires CtxShape(h, root, c, hole) && Agree(h, h', CtxPtrs(c))
    ensures CtxShape(h', root, c, hole)
    decreases c
  {
    match c
    case Top =>
    case InLeft(up, p, r) =>
      ShapeFrame(h, h', h[p].right, r);
      CtxFrame(h, h', root, up, p);
    case InRight(up, l, p) =>
      ShapeFrame(h, h', h[p].left, l);
      CtxFrame(h, h', root, up, p);
  }

  // ---------------------------------------------------------------- writing through a link

  predicate LinkOk(h: map<Ptr, Cell>, k: Link) {
    match k
    case RootLink => true
    case LeftOf(p) => p in h
    case RightOf(p) => p in h
  }

  /** `*link = x`: the new heap and the new root. */
  function SetLink(h: map<Ptr, Cell>, root: Ptr, k: Link, x: Ptr): (r: (map<Ptr, Cell>, Ptr))
    requires LinkOk(h, k)
    ensures r.0.Keys == h.Keys
    ensures forall p :: p in h ==> r.0[p].start == h[p].start && r.0[p].end == h[p].end
  {
    match k
    case RootLink => (h, x)
    case LeftOf(p) => (h[p := h[p].(left := x)], root)
    case RightOf(p) => (h[p := h[p].(right := x)], root)
  }

  /** Writing through the link of a context changes the hole and nothing else of the context,
      nor any node outside it. */
  lemma {:induction false} SetLinkMovesHole(h: map<Ptr, Cell>, root: Ptr, c: Ctx, hole: Ptr, x: Ptr)
    requires CtxShape(h, root, c, hole) && CtxProper(c)
    ensures LinkOk(h, LinkOf(c))
    ensures var r := SetLink(h, root, LinkOf(c), x);
      CtxShape(r.0, r.1, c, x) && Agree(h, r.0, h.Keys - CtxPtrs(c))
  {
    var r := SetLink(h, root, LinkOf(c), x);
    match c
    case Top =>
    case InLeft(up, p, t) =>
      ShapeFrame(h, r.0, h[p].right, t);
      CtxFrame(h, r.0, root, up, p);
    case InRight(up, t, p) =>
      ShapeFrame(h, r.0, h[p].left, t);
      CtxFrame(h, r.0, root, up, p);
  }

  // ---------------------------------------------------------------- a position in the tree

  /** The descent stands at pointer `cur`, the root of `sub`, inside `c`. */
  ghost predicate Stands(h: map<Ptr, Cell>, root: Ptr, tree: Tree, c: Ctx, sub: Tree, cur: Ptr) {
    && CtxShape(h, root, c, cur) && Shape(h, cur, sub)
    && CtxProper(c) && Proper(sub) && CtxPtrs(c) !! Ptrs(sub)
    && Plug(c, sub) == tree
  }

  lemma {:induction false} StandsLeft(h: map<Ptr, Cell>, root: Ptr, tree: Tree, c: Ctx, sub: Tree, cur: Ptr)
    requires Stands(h, root, tree, c, sub, cur) && cur != 0
    ensures sub.Node? && sub.ptr == cur && cur in h
    ensures Stands(h, root, tree, InLeft(c, cur, sub.right), sub.left, h[cur].left)
  {
  }

  lemma {:induction false} StandsRight(h: map<Ptr, Cell>, root: Ptr, tree: Tree, c: Ctx, sub: Tree, cur: Ptr)
    requires Stands(h, root, tree, c, sub, cur) && cur != 0
    ensures sub.Node? && sub.ptr == cur && cur in h
    ensures Stands(h, root, tree, InRight(c, sub.left, cur), sub.right, h[cur].right)
  {
  }

  /** Replacing the subtree at a position: build the new subtree in nodes outside the context, then
      write its root through the link. */
  lemma {:induction false} Replace(h: map<Ptr, Cell>, root: Ptr, c: Ctx, hole: Ptr,
                                   g: map<Ptr, Cell>, x: Ptr, t: Tree)
    requires CtxShape(h, root, c, hole) && CtxProper(c)
    requires Agree(h, g, CtxPtrs(c)) && Shape(g, x, t) && Proper(t) && CtxPtrs(c) !! Ptrs(t)
    ensures LinkOk(g, LinkOf(c))
    ensures var r := SetLink(g, root, LinkOf(c), x);
      && Shape(r.0, r.1, Plug(c, t))
      && Proper(Plug(c, t)) && Ptrs(Plug(c, t)) == CtxPtrs(c) + Ptrs(t)
      && InOrder(Plug(c, t)) == Before(c) + InOrder(t) + After(c)
  {
    CtxFrame(h, g, root, c, hole);
    SetLinkMovesHole(g, root, c, hole, x);
    var r := SetLink(g, root, LinkOf(c), x);
    ShapeFrame(g, r.0, x, t);
    PlugShape(r.0, r.1, c, x, t);
    PlugProper(c, t);
    PlugInOrder(c, t);
  }

  // ---------------------------------------------------------------- keys

  ghost predicate Known(h: map<Ptr, Cell>, ps: seq<Ptr>) {
    forall i :: 0 <= i < |ps| ==> ps[i] in h
  }

  /** Strictly increasing starts along a list of nodes. */
  ghost predicate Sorted(h: map<Ptr, Cell>, ps: seq<Ptr>)
    requires Known(h, ps)
  {
    forall i, j :: 0 <= i < j < |ps| ==> h[ps[i]].start < h[ps[j]].start
  }

  ghost predicate AllBelow(h: map<Ptr, Cell>, ps: seq<Ptr>, k: nat)
    requires Known(h, ps)
  {
    forall i :: 0 <= i < |ps| ==> h[ps[i]].start < k
  }

  ghost predicate AllAbove(h: map<Ptr, Cell>, ps: seq<Ptr>, k: nat)
    requires Known(h, ps)
  {
    forall i :: 0 <= i < |ps| ==> k < h[ps[i]].start
  }

  /** What the walk prints. */
  ghost function Listing(h: map<Ptr, Cell>, ps: seq<Ptr>): (r: seq<Interval>)
    requires Known(h, ps)
    ensures |r| == |ps|
  {
    seq(|ps|, i requires 0 <= i < |ps| => Interval(h[ps[i]].start, h[ps[i]].end))
  }

  /** Starts and ends of the nodes of `h` are the same in `h'`. */
  ghost predicate SameKeys(h: map<Ptr, Cell>, h': map<Ptr, Cell>, ps: seq<Ptr>) {
    forall i :: 0 <= i < |ps| && ps[i] in h ==>
      ps[i] in h' && h'[ps[i]].start == h[ps[i]].start && h'[ps[i]].end == h[ps[i]].end
  }

  lemma {:induction false} ListingFrame(h: map<Ptr, Cell>, h': map<Ptr, Cell>, ps: seq<Ptr>)
    requires Known(h, ps) && SameKeys(h, h', ps)
    ensures Known(h', ps) && Listing(h', ps) == Listing(h, ps)
    ensures Sorted(h, ps) ==> Sorted(h', ps)
  {
  }

  lemma {:induction false} InOrderKnown(t: Tree)
    ensures forall i :: 0 <= i < |InOrder(t)| ==> InOrder(t)[i] in Ptrs(t)
    ensures forall p :: p in Ptrs(t) ==> p in InOrder(t)
    decreases t
  {
    if t.Nil? {
    } else {
      InOrderKnown(t.left);
      InOrderKnown(t.right);
    }
  }

  // ---------------------------------------------------------------- the sorted list, as reference

  ghost predicate StrictlySorted(s: seq<Interval>) {
    forall i, j :: 0 <= i < j < |s| ==> s[i].start < s[j].start
  }

  ghost predicate HasStart(s: seq<Interval>, k: nat) {
    exists i :: 0 <= i < |s| && s[i].start == k
  }

  ghost function InsertSorted(s: seq<Interval>, x: Interval): seq<Interval> {
    if s == [] || x.start < s[0].start then [x] + s else [s[0]] + InsertSorted(s[1..], x)
  }

  lemma {:induction false} InsertSortedAt(a: seq<Interval>, b: seq<Interval>, x: Interval)
    requires forall i :: 0 <= i < |a| ==> a[i].start < x.start
    requires forall i :: 0 <= i < |b| ==> x.start < b[i].start
    ensures InsertSorted(a + b, x) == a + [x] + b
    decreases |a|
  {
    if a == [] {
      assert a + b == b;
    } else {
      assert (a + b)[1..] == a[1..] + b;
      InsertSortedAt(a[1..], b, x);
    }
  }

  /** A call of `insert_interval`: `node` is what kmalloc returns, 0 for no memory. */
  datatype Request = Request(start: nat, end: nat, node: Ptr, fixup: seq<Rotation>)

  /** The sorted list, and the nodes in use, after the first `k` calls on an empty tree. */
  ghost function ListAfter(reqs: seq<Request>, k: nat): (r: (seq<Interval>, set<Ptr>))
    requires k <= |reqs|
  {
    if k == 0 then ([], {})
    else
      var before, x := ListAfter(reqs, k - 1), reqs[k - 1];
      if x.node == 0 || HasStart(before.0, x.start) then before
      else (InsertSorted(before.0, Interval(x.start, x.end)), before.1 + {x.node})
  }

  /** kmalloc does not return memory that is in use. */
  ghost predicate FreshNode(reqs: seq<Request>, k: nat)
    requires k < |reqs|
  {
    reqs[k].node !in ListAfter(reqs, k).1
  }

  lemma {:induction false} InsertMembers(s: seq<Interval>, y: Interval, x: Interval)
    ensures x in InsertSorted(s, y) <==> x == y || x in s
    decreases |s|
  {
    if s != [] && y.start >= s[0].start {
      InsertMembers(s[1..], y, x);
      assert s == [s[0]] + s[1..];
    }
  }

  ghost predicate Asks(r: Request, start: nat) {
    r.node != 0 && r.start == start
  }

  /** Call `k` had memory, and no earlier call with memory asked for the same start. */
  ghost predicate FirstToAsk(reqs: seq<Request>, k: nat)
    requires k < |reqs|
  {
    reqs[k].node != 0 && forall j: nat :: j < k ==> !Asks(reqs[j], reqs[k].start)
  }

  /** One of the first `n` calls was the first to ask for its start, and asked for `x`. */
  ghost predicate AskedFirst(reqs: seq<Request>, n: nat, x: Interval)
    requires n <= |reqs|
  {
    exists k: nat :: k < n && FirstToAsk(reqs, k) && Interval(reqs[k].start, reqs[k].end) == x
  }

  lemma {:induction false} AskedFirstStep(reqs: seq<Request>, n: nat, x: Interval)
    requires n < |reqs|
    ensures AskedFirst(reqs, n + 1, x)
       <==> AskedFirst(reqs, n, x) || (FirstToAsk(reqs, n) && Interval(reqs[n].start, reqs[n].end) == x)
  {
  }

  lemma {:induction false} StartsAfter(reqs: seq<Request>, n: nat, start: nat)
    requires n <= |reqs|
    ensures HasStart(ListAfter(reqs, n).0, start) <==> exists k: nat :: k < n && Asks(reqs[k], start)
  {
    if n == 0 {
    } else {
      var before, x := ListAfter(reqs, n - 1).0, reqs[n - 1];
      StartsAfter(reqs, n - 1, start);
      HasStartInserted(before, Interval(x.start, x.end), start);
    }
  }

  lemma {:induction false} HasStartInserted(s: seq<Interval>, y: Interval, start: nat)
    ensures HasStart(InsertSorted(s, y), start) <==> y.start == start || HasStart(s, start)
    decreases |s|
  {
    if s == [] || y.start < s[0].start {
      assert InsertSorted(s, y)[0] == y;
      assert forall i :: 0 <= i < |s| ==> InsertSorted(s, y)[i + 1] == s[i];
    } else {
      HasStartInserted(s[1..], y, start);
      assert InsertSorted(s, y)[0] == s[0];
      assert forall i :: 0 <= i < |InsertSorted(s[1..], y)| ==> InsertSorted(s, y)[i + 1] == InsertSorted(s[1..], y)[i];
    }
  }

  /** After any run of calls an interval is in the list exactly when it is that of the first call, among
      those that had memory, that asked for its start. */
  lemma {:induction false} FirstCallWins(reqs: seq<Request>, n: nat, x: Interval)
    requires n <= |reqs|
    ensures x in ListAfter(reqs, n).0 <==> AskedFirst(reqs, n, x)
  {
    if n == 0 {
    } else {
      var last := reqs[n - 1];
      FirstCallWins(reqs, n - 1, x);
      AskedFirstStep(reqs, n - 1, x);
      StartsAfter(reqs, n - 1, last.start);
      InsertMembers(ListAfter(reqs, n - 1).0, Interval(last.start, last.end), x);
    }
  }

  // ---------------------------------------------------------------- the descent keeps its bounds

  /** Everything left of the position is below `hi`, everything right of it above `lo`. */
  ghost predicate Bounds(h: map<Ptr, Cell>, c: Ctx, lo: nat, hi: nat) {
    && Known(h, Before(c)) && Known(h, After(c))
    && AllBelow(h, Before(c), hi) && AllAbove(h, After(c), lo)
  }

  ghost predicate SortedTree(h: map<Ptr, Cell>, tree: Tree) {
    Known(h, InOrder(tree)) && Sorted(h, InOrder(tree))
  }

  lemma {:induction false} SortedAround(h: map<Ptr, Cell>, a: seq<Ptr>, l: seq<Ptr>, p: Ptr, r: seq<Ptr>, b: seq<Ptr>)
    requires Known(h, a + (l + [p] + r) + b) && Sorted(h, a + (l + [p] + r) + b)
    ensures p in h && Known(h, l) && Known(h, r)
    ensures AllBelow(h, l, h[p].start) && AllAbove(h, r, h[p].start)
  {
    var w, n := a + (l + [p] + r) + b, |a|;
    assert w[n + |l|] == p;
    assert forall i :: 0 <= i < |l| ==> w[n + i] == l[i];
    assert forall i :: 0 <= i < |r| ==> w[n + |l| + 1 + i] == r[i];
  }

  /** The node at a position splits the walk. */
  lemma {:induction false} Around(h: map<Ptr, Cell>, tree: Tree, c: Ctx, sub: Tree)
    requires Plug(c, sub) == tree && SortedTree(h, tree) && sub.Node?
    ensures sub.ptr in h && Known(h, InOrder(sub.left)) && Known(h, InOrder(sub.right))
    ensures AllBelow(h, InOrder(sub.left), h[sub.ptr].start) && AllAbove(h, InOrder(sub.right), h[sub.ptr].start)
  {
    PlugInOrder(c, sub);
    SortedAround(h, Before(c), InOrder(sub.left), sub.ptr, InOrder(sub.right), After(c));
  }

  lemma {:induction false} BoundsLeft(h: map<Ptr, Cell>, tree: Tree, c: Ctx, sub: Tree, lo: nat, hi: nat)
    requires Plug(c, sub) == tree && SortedTree(h, tree) && sub.Node? && Bounds(h, c, lo, hi)
    requires sub.ptr in h && lo < h[sub.ptr].start
    ensures Bounds(h, InLeft(c, sub.ptr, sub.right), lo, hi)
  {
    Around(h, tree, c, sub);
  }

  lemma {:induction false} BoundsRight(h: map<Ptr, Cell>, tree: Tree, c: Ctx, sub: Tree, lo: nat, hi: nat)
    requires Plug(c, sub) == tree && SortedTree(h, tree) && sub.Node? && Bounds(h, c, lo, hi)
    requires sub.ptr in h && h[sub.ptr].start < hi
    ensures Bounds(h, InRight(c, sub.left, sub.ptr), lo, hi)
  {
    Around(h, tree, c, sub);
  }

  lemma {:induction false} SortedInsert(h: map<Ptr, Cell>, a: seq<Ptr>, x: Ptr, b: seq<Ptr>)
    requires Known(h, a + b) && x in h && Sorted(h, a + b)
    requires Known(h, a) && Known(h, b) && AllBelow(h, a, h[x].start) && AllAbove(h, b, h[x].start)
    ensures Known(h, a + [x] + b) && Sorted(h, a + [x] + b)
  {
    var w, v, n := a + [x] + b, a + b, |a|;
    forall i, j | 0 <= i < j < |w|
      ensures h[w[i]].start < h[w[j]].start
    {
      if i == n {
        assert w[j] == b[j - n - 1];
      } else if j != n {
        var i', j' := if i < n then i else i - 1, if j < n then j else j - 1;
        assert v[i'] == w[i] && v[j'] == w[j];
      }
    }
  }

  /** Standing at an empty link with these bounds, the start is not in the tree. */
  lemma {:induction false} AbsentAtEmptyLink(h: map<Ptr, Cell>, c: Ctx, k: nat)
    requires Bounds(h, c, k, k)
    ensures Known(h, Before(c) + After(c)) && !HasStart(Listing(h, Before(c) + After(c)), k)
  {
  }

  /** A node linked at the empty link goes where the sorted list has it. */
  lemma {:induction false} LinkIsSortedPlace(h: map<Ptr, Cell>, c: Ctx, x: Ptr)
    requires x in h && Bounds(h, c, h[x].start, h[x].start)
    ensures Known(h, Before(c) + After(c)) && Known(h, Before(c) + [x] + After(c))
    ensures Listing(h, Before(c) + [x] + After(c))
         == InsertSorted(Listing(h, Before(c) + After(c)), Interval(h[x].start, h[x].end))
  {
    var a, b, it := Listing(h, Before(c)), Listing(h, After(c)), Interval(h[x].start, h[x].end);
    assert Listing(h, Before(c) + After(c)) == a + b;
    assert Listing(h, Before(c) + [x] + After(c)) == a + [it] + b;
    InsertSortedAt(a, b, it);
  }

  // ---------------------------------------------------------------- rotations

  /** One rotation: the way from the root to the rotated node, and the side it goes down to. */
  datatype Rotation = Rotation(path: seq<bool>, toRight: bool)

  /** Rotating `y` down to the right: its left child `x` comes up. */
  function RotateRightCells(h: map<Ptr, Cell>, y: Ptr): map<Ptr, Cell>
    requires y in h && h[y].left in h
  {
    var x := h[y].left;
    var g := h[y := h[y].(left := h[x].right)];
    g[x := g[x].(right := y)]
  }

  function RotateLeftCells(h: map<Ptr, Cell>, y: Ptr): map<Ptr, Cell>
    requires y in h && h[y].right in h
  {
    var x := h[y].right;
    var g := h[y := h[y].(right := h[x].left)];
    g[x := g[x].(left := y)]
  }

  lemma {:induction false} RotateRightShape(h: map<Ptr, Cell>, t: Tree)
    requires t.Node? && t.left.Node? && Shape(h, t.ptr, t) && Proper(t)
    ensures h[t.ptr].left in h && h[t.ptr].left == t.left.ptr
    ensures var t' := Node(t.left.left, t.left.ptr, Node(t.left.right, t.ptr, t.right));
      && Shape(RotateRightCells(h, t.ptr), t.left.ptr, t')
      && Proper(t') && Ptrs(t') == Ptrs(t) && InOrder(t') == InOrder(t)
  {
    var x, y := t.left.ptr, t.ptr;
    var g := RotateRightCells(h, y);
    ShapeFrame(h, g, h[x].left, t.left.left);
    ShapeFrame(h, g, h[x].right, t.left.right);
    ShapeFrame(h, g, h[y].right, t.right);
    RegroupFive(InOrder(t.left.left), x, InOrder(t.left.right), y, InOrder(t.right));
  }

  lemma {:induction false} RegroupFive(a: seq<Ptr>, x: Ptr, b: seq<Ptr>, y: Ptr, c: seq<Ptr>)
    ensures (a + [x] + b) + [y] + c == a + [x] + (b + [y] + c)
  {
  }

  lemma {:induction false} RotateLeftShape(h: map<Ptr, Cell>, t: Tree)
    requires t.Node? && t.right.Node? && Shape(h, t.ptr, t) && Proper(t)
    ensures h[t.ptr].right in h && h[t.ptr].right == t.right.ptr
    ensures var t' := Node(Node(t.left, t.ptr, t.right.left), t.right.ptr, t.right.right);
      && Shape(RotateLeftCells(h, t.ptr), t.right.ptr, t')
      && Proper(t') && Ptrs(t') == Ptrs(t) && InOrder(t') == InOrder(t)
  {
    var x, y := t.right.ptr, t.ptr;
    var g := RotateLeftCells(h, y);
    ShapeFrame(h, g, h[x].left, t.right.left);
    ShapeFrame(h, g, h[x].right, t.right.right);
    ShapeFrame(h, g, h[y].left, t.left);
    RegroupFive(InOrder(t.left), y, InOrder(t.right.left), x, InOrder(t.right.right));
  }

  // ---------------------------------------------------------------- the whole structure

  /** The heap holds exactly one sorted tree: every allocated node is in it, once. */
  ghost predicate TreeOk(h: map<Ptr, Cell>, root: Ptr, tree: Tree) {
    Shape(h, root, tree) && Proper(tree) && Ptrs(tree) == h.Keys && SortedTree(h, tree)
  }

  lemma {:induction false} LinkNewNode(h: map<Ptr, Cell>, root: Ptr, tree: Tree, c: Ctx, x: Ptr)
    requires Stands(h, root, tree, c, Nil, 0) && SortedTree(h, tree)
    requires x in h && x != 0 && h[x].left == 0 && h[x].right == 0
    requires Ptrs(tree) == h.Keys - {x} && Bounds(h, c, h[x].start, h[x].start)
    ensures LinkOk(h, LinkOf(c))
    ensures var r, tree' := SetLink(h, root, LinkOf(c), x), Plug(c, Node(Nil, x, Nil));
      && TreeOk(r.0, r.1, tree')
      && Listing(r.0, InOrder(tree'))
           == InsertSorted(Listing(h, InOrder(tree)), Interval(h[x].start, h[x].end))
  {
    var leaf := Node(Nil, x, Nil);
    PlugProper(c, Nil);
    Replace(h, root, c, 0, h, x, leaf);
    LinkedWalk(h, tree, c, x);
    ListingFrame(h, SetLink(h, root, LinkOf(c), x).0, InOrder(Plug(c, leaf)));
  }

  lemma {:induction false} LinkedWalk(h: map<Ptr, Cell>, tree: Tree, c: Ctx, x: Ptr)
    requires Plug(c, Nil) == tree && SortedTree(h, tree) && x in h && Bounds(h, c, h[x].start, h[x].start)
    ensures SortedTree(h, Plug(c, Node(Nil, x, Nil)))
    ensures Listing(h, InOrder(Plug(c, Node(Nil, x, Nil))))
         == InsertSorted(Listing(h, InOrder(tree)), Interval(h[x].start, h[x].end))
  {
    PlugInOrder(c, Nil);
    PlugInOrder(c, Node(Nil, x, Nil));
    assert InOrder(tree) == Before(c) + After(c);
    assert InOrder(Node(Nil, x, Nil)) == [x];
    LinkIsSortedPlace(h, c, x);
    SortedInsert(h, Before(c), x, After(c));
  }

  /** Putting a rotated subtree back: same nodes, same walk. */
  lemma {:induction false} PutRotated(h: map<Ptr, Cell>, root: Ptr, tree: Tree, c: Ctx, sub: Tree,
                                      g: map<Ptr, Cell>, x: Ptr, t: Tree)
    requires TreeOk(h, root, tree) && sub.Node? && Stands(h, root, tree, c, sub, sub.ptr)
    requires g.Keys == h.Keys && Agree(h, g, CtxPtrs(c)) && SameKeys(h, g, InOrder(tree))
    requires Shape(g, x, t) && Proper(t) && Ptrs(t) == Ptrs(sub) && InOrder(t) == InOrder(sub)
    ensures LinkOk(g, LinkOf(c))
    ensures var r := SetLink(g, root, LinkOf(c), x);
      && TreeOk(r.0, r.1, Plug(c, t)) && r.0.Keys == h.Keys && InOrder(Plug(c, t)) == InOrder(tree)
      && Listing(r.0, InOrder(tree)) == Listing(h, InOrder(tree))
  {
    PlugInOrder(c, sub);
    PlugProper(c, sub);
    Replace(h, root, c, sub.ptr, g, x, t);
    ListingFrame(h, SetLink(g, root, LinkOf(c), x).0, InOrder(tree));
  }

  /** A position reached by going left only, at a node without a left child, is the start of the walk. */
  lemma {:induction false} FirstOfWalk(tree: Tree, c: Ctx, sub: Tree)
    requires Plug(c, sub) == tree && sub.Node? && sub.left.Nil? && Before(c) == []
    ensures InOrder(tree) == [sub.ptr] + InOrder(Plug(c, sub.right))
  {
    PlugInOrder(c, sub);
    PlugInOrder(c, sub.right);
  }

  lemma {:induction false} DropNode(h: map<Ptr, Cell>, root: Ptr, t: Tree, x: Ptr)
    requires Shape(h, root, t) && x !in Ptrs(t)
    ensures Shape(h - {x}, root, t)
  {
    ShapeFrame(h, h - {x}, root, t);
  }

  /** Listing and order survive the removal of the first node. */
  lemma {:induction false} DropFirstKey(h: map<Ptr, Cell>, g: map<Ptr, Cell>, x: Ptr, w: seq<Ptr>)
    requires Known(h, [x] + w) && Sorted(h, [x] + w) && SameKeys(h, g, w)
    ensures Known(g, w) && Sorted(g, w) && Listing(g, w) == Listing(h, [x] + w)[1..]
  {
    SortedTail(h, [x] + w);
    assert ([x] + w)[1..] == w;
    ListingFrame(h, g, w);
  }

  /** Taking out the first node of the walk, which has no left child. */
  lemma {:induction false} UnlinkFirst(h: map<Ptr, Cell>, root: Ptr, tree: Tree, c: Ctx, sub: Tree)
    requires TreeOk(h, root, tree) && sub.Node? && Stands(h, root, tree, c, sub, sub.ptr)
    requires sub.left.Nil? && Before(c) == []
    ensures LinkOk(h, LinkOf(c)) && InOrder(tree) == [sub.ptr] + InOrder(Plug(c, sub.right))
    ensures var r, tree' := SetLink(h, root, LinkOf(c), h[sub.ptr].right), Plug(c, sub.right);
      && TreeOk(r.0 - {sub.ptr}, r.1, tree')
      && Listing(r.0 - {sub.ptr}, InOrder(tree')) == Listing(h, InOrder(tree))[1..]
  {
    var x := sub.ptr;
    FirstOfWalk(tree, c, sub);
    Replace(h, root, c, x, h, h[x].right, sub.right);
    var r, tree' := SetLink(h, root, LinkOf(c), h[x].right), Plug(c, sub.right);
    DropNode(r.0, r.1, tree', x);
    assert Ptrs(tree') == (r.0 - {x}).Keys by {
      PlugProper(c, sub);
    }
    assert SameKeys(h, r.0 - {x}, InOrder(tree')) by {
      InOrderKnown(tree');
    }
    DropFirstKey(h, r.0 - {x}, x, InOrder(tree'));
  }

  lemma {:induction false} SortedTail(h: map<Ptr, Cell>, w: seq<Ptr>)
    requires Known(h, w) && Sorted(h, w) && w != []
    ensures Known(h, w[1..]) && Sorted(h, w[1..])
  {
  }

  lemma {:induction false} NextIndex(h: map<Ptr, Cell>, a: seq<Ptr>, b: seq<Ptr>, i: nat)
    requires Known(h, a) && Known(h, b) && Known(h, a + b) && Sorted(h, a + b) && i < |a + b|
    requires AllBelow(h, a, h[(a + b)[i]].start + 1) && AllAbove(h, b, h[(a + b)[i]].start)
    ensures i == |a| - 1
  {
    var w := a + b;
    assert forall j :: |a| <= j < |w| ==> w[j] == b[j - |a|];
    assert i < |a|;
    var last := |a| - 1;
    assert a[last] == w[last];
  }

  lemma {:induction false} NodesNotNull(h: map<Ptr, Cell>, p: Ptr, t: Tree)
    requires Shape(h, p, t)
    ensures 0 !in InOrder(t)
    decreases t
  {
    if t.Nil? {
    } else {
      NodesNotNull(h, h[p].left, t.left);
      NodesNotNull(h, h[p].right, t.right);
    }
  }

  /** The list holds every element of the set, each exactly once, and nothing else. */
  ghost predicate Once(ps: seq<Ptr>, s: set<Ptr>) {
    && (forall i :: 0 <= i < |ps| ==> ps[i] in s)
    && (forall p :: p in s ==> p in ps)
    && forall i, j :: 0 <= i < j < |ps| ==> ps[i] != ps[j]
  }

  lemma {:induction false} Regroup(a: seq<Ptr>, p: Ptr, b: seq<Ptr>)
    ensures a + ([p] + b) == (a + [p]) + b
  {
  }

  lemma {:induction false} EmptyWalk(h: map<Ptr, Cell>, root: Ptr, t: Tree)
    requires TreeOk(h, root, t) && InOrder(t) == []
    ensures h == map[] && root == 0
  {
    assert t.Nil?;
  }

  lemma {:induction false} NodesOnce(t: Tree)
    requires Proper(t)
    ensures Once(InOrder(t), Ptrs(t))
    decreases t
  {
    if t.Nil? {
    } else {
      NodesOnce(t.left);
      NodesOnce(t.right);
    }
  }

  class IntervalSet {
    var heap: map<Ptr, Cell>
    var root: Ptr
    ghost var tree: Tree

    ghost predicate Valid()
      reads this
    {
      TreeOk(heap, root, tree)
    }

    /** The nodes in walk order. */
    ghost function Nodes(): seq<Ptr>
      reads this
    {
      InOrder(tree)
    }

    ghost function Intervals(): seq<Interval>
      requires Valid()
      reads this
    {
      Listing(heap, Nodes())
    }

    constructor ()
      ensures Valid() && heap == map[] && Intervals() == []
    {
      heap := map[];
      root := 0;
      tree := Nil;
    }

    /** `insert_interval`. `node` is what kmalloc returned (0: no memory), `fixup` the rotations that
        rb_insert_color makes. */
    method Insert(start: nat, end: nat, node: Ptr, fixup: seq<Rotation>) returns (r: Result)
      requires Valid() && node !in heap
      modifies this
      ensures Valid()
      ensures r == ENOMEM <==> node == 0
      ensures node != 0 ==> (r == EEXIST <==> HasStart(old(Intervals()), start))
      ensures r != Inserted ==> heap == old(heap) && root == old(root) && tree == old(tree)
      ensures r == Inserted ==> heap.Keys == old(heap.Keys) + {node}
      ensures r == Inserted ==> Intervals() == InsertSorted(old(Intervals()), Interval(start, end))
    {
      if node == 0 {
        return ENOMEM;
      }
      ghost var before := heap;
      heap := heap[node := Cell(start, end, 0, 0)];
      WithNewCell(before, heap, root, tree, node);
      var found, link;
      ghost var c;
      found, link, c := Descend(start);
      if found {
        heap := heap - {node};
        assert heap == before;
        return EEXIST;
      }
      LinkNewNode(heap, root, tree, c, node);
      AbsentInTree(heap, tree, c, start);
      var linked := SetLink(heap, root, link, node);
      heap, root := linked.0, linked.1;
      tree := Plug(c, Node(Nil, node, Nil));
      Rebalance(fixup);
      return Inserted;
    }

    /** Any run of calls on an empty tree leaves the reference list, whatever the fix-up does. */
    method InsertAll(reqs: seq<Request>)
      requires Valid() && heap == map[] && Intervals() == []
      requires forall k: nat :: k < |reqs| ==> FreshNode(reqs, k)
      modifies this
      ensures Valid() && Intervals() == ListAfter(reqs, |reqs|).0 && heap.Keys == ListAfter(reqs, |reqs|).1
    {
      var i := 0;
      while i < |reqs|
        invariant 0 <= i <= |reqs| && Valid()
        invariant Intervals() == ListAfter(reqs, i).0 && heap.Keys == ListAfter(reqs, i).1
      {
        assert FreshNode(reqs, i);
        var _ := Insert(reqs[i].start, reqs[i].end, reqs[i].node, reqs[i].fixup);
        i := i + 1;
      }
    }

    /** The descent loop of `insert_interval`: either the start is there, or an empty link for it. */
    method Descend(start: nat) returns (found: bool, link: Link, ghost c: Ctx)
      requires Stands(heap, root, tree, Top, tree, root) && SortedTree(heap, tree)
      ensures found ==> HasStart(Listing(heap, InOrder(tree)), start)
      ensures !found ==> link == LinkOf(c) && Stands(heap, root, tree, c, Nil, 0) && Bounds(heap, c, start, start)
    {
      var cur := root;
      link, c := RootLink, Top;
      ghost var sub := tree;
      while cur != 0
        invariant link == LinkOf(c) && Stands(heap, root, tree, c, sub, cur) && Bounds(heap, c, start, start)
        decreases sub
      {
        StandsLeft(heap, root, tree, c, sub, cur);
        StandsRight(heap, root, tree, c, sub, cur);
        if start < heap[cur].start {
          BoundsLeft(heap, tree, c, sub, start, start);
          link, c := LeftOf(cur), InLeft(c, cur, sub.right);
          cur, sub := heap[cur].left, sub.left;
        } else if start > heap[cur].start {
          BoundsRight(heap, tree, c, sub, start, start);
          link, c := RightOf(cur), InRight(c, sub.left, cur);
          cur, sub := heap[cur].right, sub.right;
        } else {
          FoundStart(heap, tree, c, sub);
          return true, link, c;
        }
      }
      assert sub == Nil;
      return false, link, c;
    }

    /** Follow a path from the root, as far as it leads. */
    method FollowPath(path: seq<bool>) returns (link: Link, cur: Ptr, ghost c: Ctx, ghost sub: Tree)
      requires Valid()
      ensures link == LinkOf(c) && Stands(heap, root, tree, c, sub, cur)
    {
      link, cur, c, sub := RootLink, root, Top, tree;
      var k := 0;
      while k < |path| && cur != 0
        invariant 0 <= k <= |path|
        invariant link == LinkOf(c) && Stands(heap, root, tree, c, sub, cur)
      {
        StandsLeft(heap, root, tree, c, sub, cur);
        StandsRight(heap, root, tree, c, sub, cur);
        if path[k] {
          link, c := RightOf(cur), InRight(c, sub.left, cur);
          cur, sub := heap[cur].right, sub.right;
        } else {
          link, c := LeftOf(cur), InLeft(c, cur, sub.right);
          cur, sub := heap[cur].left, sub.left;
        }
        k := k + 1;
      }
    }

    /** One rotation at the end of a path; nothing when there is no such node or no child to raise. */
    method Rotate(rot: Rotation)
      requires Valid()
      modifies this
      ensures Valid() && heap.Keys == old(heap.Keys)
      ensures Nodes() == old(Nodes()) && Intervals() == old(Intervals())
    {
      var link, cur;
      ghost var c, sub;
      link, cur, c, sub := FollowPath(rot.path);
      if cur == 0 {
        return;
      }
      assert sub.Node? && sub.ptr == cur && cur in heap;
      if rot.toRight && heap[cur].left != 0 {
        var x := heap[cur].left;
        PutRightRotated(heap, root, tree, c, sub);
        ghost var t := Node(sub.left.left, x, Node(sub.left.right, cur, sub.right));
        var g := SetLink(RotateRightCells(heap, cur), root, link, x);
        heap, root := g.0, g.1;
        tree := Plug(c, t);
      } else if !rot.toRight && heap[cur].right != 0 {
        var x := heap[cur].right;
        PutLeftRotated(heap, root, tree, c, sub);
        ghost var t := Node(Node(sub.left, cur, sub.right.left), x, sub.right.right);
        var g := SetLink(RotateLeftCells(heap, cur), root, link, x);
        heap, root := g.0, g.1;
        tree := Plug(c, t);
      }
    }

    /** The leftmost position of a tree that is not empty. */
    method Leftmost() returns (link: Link, cur: Ptr, ghost c: Ctx, ghost sub: Tree)
      requires Valid() && root != 0
      ensures link == LinkOf(c) && Stands(heap, root, tree, c, sub, cur)
      ensures cur != 0 && sub.Node? && sub.left.Nil? && Before(c) == []
    {
      link, cur, c, sub := RootLink, root, Top, tree;
      StandsLeft(heap, root, tree, c, sub, cur);
      while heap[cur].left != 0
        invariant link == LinkOf(c) && Stands(heap, root, tree, c, sub, cur)
        invariant cur != 0 && cur in heap && sub.Node? && Before(c) == []
        decreases sub
      {
        StandsLeft(heap, root, tree, c, sub, cur);
        link, c := LeftOf(cur), InLeft(c, cur, sub.right);
        cur, sub := heap[cur].left, sub.left;
        StandsLeft(heap, root, tree, c, sub, cur);
      }
      StandsLeft(heap, root, tree, c, sub, cur);
    }

    /** `rb_first`: the first node of the walk, or 0 for an empty tree. */
    method First() returns (p: Ptr)
      requires Valid()
      ensures p == if Nodes() == [] then 0 else Nodes()[0]
      ensures p != 0 <==> Nodes() != []
    {
      if root == 0 {
        assert tree.Nil?;
        return 0;
      }
      var link, cur;
      ghost var c, sub;
      link, cur, c, sub := Leftmost();
      FirstOfWalk(tree, c, sub);
      return cur;
    }

    /** `rb_next`: the node after `p` in the walk, or 0 at its end. */
    method NextNode(p: Ptr, ghost i: nat) returns (next: Ptr)
      requires Valid() && i < |Nodes()| && Nodes()[i] == p
      ensures next == if i + 1 < |Nodes()| then Nodes()[i + 1] else 0
    {
      var k, cur := heap[p].start, root;
      next := 0;
      ghost var c, sub := Top, tree;
      while cur != 0
        invariant Stands(heap, root, tree, c, sub, cur) && Bounds(heap, c, k, k + 1)
        invariant next == if After(c) == [] then 0 else After(c)[0]
        decreases sub
      {
        StandsLeft(heap, root, tree, c, sub, cur);
        StandsRight(heap, root, tree, c, sub, cur);
        if k < heap[cur].start {
          BoundsLeft(heap, tree, c, sub, k, k + 1);
          next, c := cur, InLeft(c, cur, sub.right);
          cur, sub := heap[cur].left, sub.left;
        } else {
          BoundsRight(heap, tree, c, sub, k, k + 1);
          c := InRight(c, sub.left, cur);
          cur, sub := heap[cur].right, sub.right;
        }
      }
      assert sub == Nil;
      PlugInOrder(c, Nil);
      assert Nodes() == Before(c) + After(c);
      NextIndex(heap, Before(c), After(c), i);
    }

    /** The interval part of `data_structures_show`. */
    method Show() returns (out: seq<Interval>)
      requires Valid()
      ensures out == Intervals() && StrictlySorted(out)
    {
      out := [];
      var node := First();
      ghost var i := 0;
      while node != 0
        invariant i <= |Nodes()| && out == Intervals()[..i]
        invariant node == if i < |Nodes()| then Nodes()[i] else 0
        decreases |Nodes()| - i
      {
        out := out + [Interval(heap[node].start, heap[node].end)];
        node := NextNode(node, i);
        i := i + 1;
      }
      assert i == |Nodes()| by {
        NodesNotNull(heap, root, tree);
      }
    }

    /** The tree part of `data_structures_exit`: every allocated node is freed once, in walk order. */
    method Teardown(fixups: seq<seq<Rotation>>) returns (freed: seq<Ptr>)
      requires Valid()
      modifies this
      ensures Valid() && heap == map[] && root == 0
      ensures freed == old(Nodes()) && Once(freed, old(heap.Keys))
    {
      freed := [];
      ghost var t, all := tree, Nodes();
      var node := First();
      while node != 0
        invariant Valid() && freed + Nodes() == all
        invariant node != 0 <==> Nodes() != []
        decreases |Nodes()|
      {
        var p;
        p, node := FreeFirst(if |freed| < |fixups| then fixups[|freed|] else []);
        Regroup(freed, p, Nodes());
        freed := freed + [p];
      }
      NodesOnce(t);
      EmptyWalk(heap, root, tree);
    }

    /** One round of the teardown loop. */
    method FreeFirst(fixup: seq<Rotation>) returns (p: Ptr, node: Ptr)
      requires Valid() && Nodes() != []
      modifies this
      ensures Valid() && old(Nodes()) == [p] + Nodes() && (node != 0 <==> Nodes() != [])
    {
      assert root != 0;
      p := EraseFirst(fixup);
      node := First();
    }

    /** `rb_erase` of the first node, with the fix-up's rotations, followed by `kfree`. */
    method EraseFirst(fixup: seq<Rotation>) returns (p: Ptr)
      requires Valid() && root != 0
      modifies this
      ensures Valid() && old(Nodes()) != [] && p == old(Nodes())[0] && p in old(heap)
      ensures heap.Keys == old(heap.Keys) - {p} && Nodes() == old(Nodes())[1..]
      ensures Intervals() == old(Intervals())[1..]
    {
      var link;
      ghost var c, sub;
      link, p, c, sub := Leftmost();
      UnlinkFirst(heap, root, tree, c, sub);
      var r := SetLink(heap, root, link, heap[p].right);
      heap, root := r.0 - {p}, r.1;
      tree := Plug(c, sub.right);
      Rebalance(fixup);
    }

    /** What the unseen fix-up may do: any rotations. */
    method Rebalance(fixup: seq<Rotation>)
      requires Valid()
      modifies this
      ensures Valid() && heap.Keys == old(heap.Keys)
      ensures Nodes() == old(Nodes()) && Intervals() == old(Intervals())
    {
      for k := 0 to |fixup|
        invariant Valid() && heap.Keys == old(heap.Keys)
        invariant Nodes() == old(Nodes()) && Intervals() == old(Intervals())
      {
        Rotate(fixup[k]);
      }
    }
  }

  lemma {:induction false} WithNewCell(h: map<Ptr, Cell>, g: map<Ptr, Cell>, root: Ptr, tree: Tree, node: Ptr)
    requires TreeOk(h, root, tree) && node !in h && g.Keys == h.Keys + {node}
    requires forall p :: p in h ==> g[p] == h[p]
    ensures Stands(g, root, tree, Top, tree, root) && SortedTree(g, tree)
    ensures Listing(g, InOrder(tree)) == Listing(h, InOrder(tree))
  {
    assert forall p :: p in h ==> p in g && g[p] == h[p];
    ShapeFrame(h, g, root, tree);
    ListingFrame(h, g, InOrder(tree));
  }

  lemma {:induction false} FoundStart(h: map<Ptr, Cell>, tree: Tree, c: Ctx, sub: Tree)
    requires Plug(c, sub) == tree && SortedTree(h, tree) && sub.Node? && sub.ptr in h
    ensures HasStart(Listing(h, InOrder(tree)), h[sub.ptr].start)
  {
    PlugInOrder(c, sub);
    var n := |Before(c)| + |InOrder(sub.left)|;
    assert InOrder(tree)[n] == sub.ptr;
    assert Listing(h, InOrder(tree))[n].start == h[sub.ptr].start;
  }

  lemma {:induction false} AbsentInTree(h: map<Ptr, Cell>, tree: Tree, c: Ctx, k: nat)
    requires Plug(c, Nil) == tree && SortedTree(h, tree) && Bounds(h, c, k, k)
    ensures !HasStart(Listing(h, InOrder(tree)), k)
  {
    PlugInOrder(c, Nil);
    assert InOrder(tree) == Before(c) + After(c);
    AbsentAtEmptyLink(h, c, k);
  }

  lemma {:induction false} PutRightRotated(h: map<Ptr, Cell>, root: Ptr, tree: Tree, c: Ctx, sub: Tree)
    requires TreeOk(h, root, tree) && sub.Node? && Stands(h, root, tree, c, sub, sub.ptr)
    requires sub.ptr in h && h[sub.ptr].left != 0
    ensures sub.left.Node? && h[sub.ptr].left == sub.left.ptr && sub.left.ptr in h
    ensures LinkOk(RotateRightCells(h, sub.ptr), LinkOf(c))
    ensures var r := SetLink(RotateRightCells(h, sub.ptr), root, LinkOf(c), sub.left.ptr);
      var t := Node(sub.left.left, sub.left.ptr, Node(sub.left.right, sub.ptr, sub.right));
      && TreeOk(r.0, r.1, Plug(c, t)) && r.0.Keys == h.Keys && InOrder(Plug(c, t)) == InOrder(tree)
      && Listing(r.0, InOrder(tree)) == Listing(h, InOrder(tree))
  {
    assert Shape(h, h[sub.ptr].left, sub.left);
    RotateRightShape(h, sub);
    var g := RotateRightCells(h, sub.ptr);
    assert g.Keys == h.Keys && Agree(h, g, CtxPtrs(c));
    PutRotated(h, root, tree, c, sub, g, sub.left.ptr,
               Node(sub.left.left, sub.left.ptr, Node(sub.left.right, sub.ptr, sub.right)));
  }

  lemma {:induction false} PutLeftRotated(h: map<Ptr, Cell>, root: Ptr, tree: Tree, c: Ctx, sub: Tree)
    requires TreeOk(h, root, tree) && sub.Node? && Stands(h, root, tree, c, sub, sub.ptr)
    requires sub.ptr in h && h[sub.ptr].right != 0
    ensures sub.right.Node? && h[sub.ptr].right == sub.right.ptr && sub.right.ptr in h
    ensures LinkOk(RotateLeftCells(h, sub.ptr), LinkOf(c))
    ensures var r := SetLink(RotateLeftCells(h, sub.ptr), root, LinkOf(c), sub.right.ptr);
      var t := Node(Node(sub.left, sub.ptr, sub.right.left), sub.right.ptr, sub.right.right);
      && TreeOk(r.0, r.1, Plug(c, t)) && r.0.Keys == h.Keys && InOrder(Plug(c, t)) == InOrder(tree)
      && Listing(r.0, InOrder(tree)) == Listing(h, InOrder(tree))
  {
    assert Shape(h, h[sub.ptr].right, sub.right);
    RotateLeftShape(h, sub);
    var g := RotateLeftCells(h, sub.ptr);
    assert g.Keys == h.Keys && Agree(h, g, CtxPtrs(c));
    PutRotated(h, root, tree, c, sub, g, sub.right.ptr,
               Node(Node(sub.left, sub.ptr, sub.right.left), sub.right.ptr, sub.right.right));
  }
}
