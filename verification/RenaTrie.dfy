/** rena's rule trie (`rena/src/tree.c`): lookups lower-case their byte, nodes keep
the byte that the key was written with. */
module RenaTrie {
  import opened Bytes
  import opened Wrappers
  import opened Rules
  import opened Sequences
  import opened TrieHeap
  import opened TrieView

  type TreeNode = Node<Option<Text>>
  type Paths = map<Text, Node?<Option<Text>>>

  ghost function Place(ks: seq<TreeNode>, pos: nat): Node?<Option<Text>> {
    if pos == 0 || |ks| < pos then null else ks[pos - 1]
  }

  /** Where a search for `val` ends: at its node, or where its node belongs. */
  ghost predicate Spot(ks: seq<TreeNode>, pos: nat, val: byte, exact: bool) {
    && pos <= |ks|
    && (exact ==> pos < |ks| && ks[pos].value == Lower(val))
    && (!exact ==> Fits(ks, pos, Lower(val)) && Fits(ks, pos, val))
    && (!exact && pos < |ks| ==> Lower(val) < ks[pos].value)
  }

  /** `tree_get_sibling2`: the sibling for `val`, or with `before` the one ahead of where
  it is or belongs. */
  method GetSibling2(ghost t: Trie<Option<Text>>, first: Node?<Option<Text>>, val: byte,
    before: bool, ghost o: Node?<Option<Text>>)
      returns (r: Node?<Option<Text>>, exact: bool, ghost pos: nat)
    requires t.Valid() && o in t.shape.kids && first == At(t.shape.kids[o], 0)
    ensures var ks := t.shape.kids[o];
      && Spot(ks, pos, val, exact)
      && r == if before then Place(ks, pos) else if exact then ks[pos] else null
  {
    hide Trie.Valid, Ordered;
    ghost var ks := t.shape.kids[o];
    pos := 0;
    t.Siblings(o);
    var value := Lower(val);
    var n, prev: Node?<Option<Text>> := first, null;
    while n != null && value >= n.value
      invariant pos <= |ks| && n == At(ks, pos) && prev == Place(ks, pos)
      invariant forall i :: 0 <= i < pos ==> ks[i].value < value
      decreases |ks| - pos
    {
      if n.value == value {
        return if before then prev else n, true, pos;
      }
      t.NextSibling(o, pos);
      prev := n;
      n := n.nextSibling;
      pos := pos + 1;
    }
    FitsBefore(ks, pos, value);
    return if before then prev else null, false, pos;
  }

  /** `n` is the node of the path `p`, or is out of every search's reach. */
  ghost predicate Stands(at: Paths, nodes: set<TreeNode>, n: TreeNode, p: Option<Text>) {
    && n in nodes
    && (p.Some? ==> p.value in at && at[p.value] == n)
    && (p.None? ==> n !in at.Values)
  }

  /** The path of the child for `val` of the node at `p`: none once a new node has
  kept an upper-case letter. */
  ghost function PathOf(at: Paths, p: Option<Text>, val: byte): Option<Text> {
    if p.Some? && (IsLower(val) || p.value + [Lower(val)] in at) then Some(p.value + [Lower(val)]) else None
  }

  /** `r` is the child for `val` of the node at `p`: there already, or the one new node. */
  ghost predicate Reaches(was: Paths, nodes: set<TreeNode>, now: Paths, nodes': set<TreeNode>,
    p: Option<Text>, val: byte, r: TreeNode) {
    var q := PathOf(was, p, val);
    && (nodes' == nodes || (r !in nodes && nodes' == nodes + {r}))
    && Stands(now, nodes', r, q)
    && (q.None? || q.value in was ==> now == was)
    && (q.Some? && q.value !in was ==> r !in nodes && now == was[q.value := r])
  }

  /** What adding a child of `o` does to the view: nothing, or one node more. */
  ghost predicate Added(was: Shape<Option<Text>>, nodes: set<TreeNode>, root: Node?<Option<Text>>,
    t: Trie<Option<Text>>, o: Node?<Option<Text>>, p: Option<Text>, val: byte, r: TreeNode, pos: nat, exact: bool)
    requires o in was.kids && (p.Some? ==> p.value in was.at && was.at[p.value] == o)
    reads t
  {
    && Spot(was.kids[o], pos, val, exact)
    && (exact ==> r == was.kids[o][pos] && t.shape == was && t.nodes == nodes && t.root == root)
    && (!exact ==>
          && r !in was.kids && r !in nodes && t.nodes == nodes + {r} && r.value == val
          && t.shape == Grown(was, o, pos, r, p)
          && t.root == if o == null && pos == 0 then r else root)
  }

  /** `tree_add_sibling`. A new first node is only ever put in at the top level, where
  the caller makes it the root. */
  method AddSibling(t: Trie<Option<Text>>, n: Node?<Option<Text>>, val: byte,
                    ghost o: Node?<Option<Text>>, ghost p: Option<Text>)
      returns (r: TreeNode, ghost pos: nat, ghost exact: bool)
    requires t.Valid() && o in t.shape.kids && n == At(t.shape.kids[o], 0)
    requires o == null || (n != null && n.value <= Lower(val))
    requires p.Some? ==> p.value in t.shape.at && t.shape.at[p.value] == o
    requires p.None? ==> o !in t.shape.at.Values
    modifies t, t.nodes`nextChild, t.nodes`nextSibling
    ensures t.Valid() && fresh(t.nodes - old(t.nodes)) && (r !in old(t.nodes) ==> r.adapted == None)
    ensures Reaches(old(t.shape).at, old(t.nodes), t.shape.at, t.nodes, p, val, r)
    ensures Added(old(t.shape), old(t.nodes), old(t.root), t, o, p, val, r, pos, exact)
  {
    hide Trie.Valid, Ordered, Fits, Grown, Reaches;
    var previous;
    var found;
    previous, found, pos := GetSibling2(t, n, val, true, o);
    exact := found;
    if 0 < pos {
      t.NextSibling(o, pos - 1);
    }
    var cur := if previous == null then n else previous.nextSibling;
    assert cur == At(t.shape.kids[o], pos);
    if found {
      Found(t, o, p, val, pos);
      r := cur;
      return;
    }
    Missing(t, o, p, val, pos);
    r := new Node(val, None);
    t.OnPaths();
    Create(t, null, previous, cur, r, o, pos, p);
  }

  /** The child that a search finds. */
  lemma Found(t: Trie<Option<Text>>, o: Node?<Option<Text>>, p: Option<Text>, val: byte, pos: nat)
    requires t.Valid() && o in t.shape.kids && pos < |t.shape.kids[o]| && t.shape.kids[o][pos].value == Lower(val)
    requires p.Some? ==> p.value in t.shape.at && t.shape.at[p.value] == o
    requires p.None? ==> o !in t.shape.at.Values
    ensures t.shape.kids[o][pos] in t.nodes
    ensures Reaches(t.shape.at, t.nodes, t.shape.at, t.nodes, p, val, t.shape.kids[o][pos])
  {
    var r := t.shape.kids[o][pos];
    if p.Some? {
      t.ChildPath(p.value, pos);
    } else {
      t.HiddenChild(o, pos);
    }
  }

  lemma Missing(t: Trie<Option<Text>>, o: Node?<Option<Text>>, p: Option<Text>, val: byte, pos: nat)
    requires t.Valid() && o in t.shape.kids && pos <= |t.shape.kids[o]| && Fits(t.shape.kids[o], pos, Lower(val))
    requires p.Some? ==> p.value in t.shape.at && t.shape.at[p.value] == o
    ensures p.Some? ==> p.value + [Lower(val)] !in t.shape.at
  {
    if p.Some? {
      t.NoChildPath(p.value, pos, Lower(val));
    }
  }

  /** A new node, for a byte that no search finds among the children of `o`. */
  method Create(t: Trie<Option<Text>>, owner: Node?<Option<Text>>, prev: Node?<Option<Text>>,
    cur: Node?<Option<Text>>, r: TreeNode,
                ghost o: Node?<Option<Text>>, ghost pos: nat, ghost p: Option<Text>)
    requires prev == null ==> owner == o
    requires t.Valid() && o in t.shape.kids
    requires p.Some? ==> p.value in t.shape.at && t.shape.at[p.value] == o && p.value + [Lower(r.value)] !in t.shape.at
    requires p.None? ==> o !in t.shape.at.Values
    requires r !in t.nodes && r !in t.shape.kids && r.nextChild == null
    requires pos <= |t.shape.kids[o]| && Fits(t.shape.kids[o], pos, r.value)
    requires prev == Place(t.shape.kids[o], pos) && cur == At(t.shape.kids[o], pos)
    modifies t, t.nodes`nextChild, t.nodes`nextSibling, r`nextSibling
    ensures t.Valid() && t.nodes == old(t.nodes) + {r}
    ensures Reaches(old(t.shape).at, old(t.nodes), t.shape.at, t.nodes, p, r.value, r)
    ensures t.shape == Grown(old(t.shape), o, pos, r, p)
    ensures t.root == if o == null && pos == 0 then r else old(t.root)
  {
    hide Fits, Grown, Shape.Sound, Reaches;
    t.OnPaths();
    CreatedReaches(t.shape.at, t.nodes, p, r);
    GrownIsSound(t.shape, o, pos, r, p);
    t.Put(owner, prev, cur, r, o, pos, p);
  }

  lemma CreatedReaches(was: Paths, nodes: set<TreeNode>, p: Option<Text>, r: TreeNode)
    requires forall q :: q in was ==> was[q] == null || was[q] in nodes
    requires p.Some? ==> p.value + [Lower(r.value)] !in was
    requires r !in nodes
    ensures var now := if p.Some? && IsLower(r.value) then was[p.value + [r.value] := r] else was;
      Reaches(was, nodes, now, nodes + {r}, p, r.value, r)
  {
    assert r !in was.Values;
  }

  /** `tree_add_child`. */
  method AddChild(t: Trie<Option<Text>>, n: TreeNode, val: byte, ghost p: Option<Text>) returns (r: TreeNode)
    requires t.Valid() && Stands(t.shape.at, t.nodes, n, p)
    modifies t, t.nodes`nextChild, t.nodes`nextSibling
    ensures t.Valid() && fresh(t.nodes - old(t.nodes)) && (r !in old(t.nodes) ==> r.adapted == None)
    ensures t.root == old(t.root)
    ensures Reaches(old(t.shape).at, old(t.nodes), t.shape.at, t.nodes, p, val, r)
  {
    hide Trie.Valid, Ordered, Fits, Grown, Reaches;
    t.InShape(n);
    t.Siblings(n);
    var value := Lower(val);
    if n.nextChild == null || value < n.nextChild.value {
      FitsBefore(t.shape.kids[n], 0, val);
      FitsBefore(t.shape.kids[n], 0, value);
      Missing(t, n, p, val, 0);
      r := new Node(val, None);
      Create(t, n, null, n.nextChild, r, n, 0, p);
    } else {
      ghost var pos, exact;
      r, pos, exact := AddSibling(t, n.nextChild, val, n, p);
    }
  }

  /** The value of the root, when there is one. */
  ghost function RootOf(t: Trie<Option<Text>>): Option<byte>
    reads t
  {
    if t.root == null then None else Some(t.root.value)
  }

  /** A new top-level node that kept an upper-case letter below the root's value becomes
  the root although it does not come first. */
  predicate Moves(paths: set<Text>, root: Option<byte>, c: byte) {
    !IsLower(c) && [Lower(c)] !in paths && root.Some? && c < root.value
  }

  function RootAfter(paths: set<Text>, root: Option<byte>, c: byte): Option<byte> {
    if [Lower(c)] !in paths && (root.None? || c < root.value) then Some(c) else root
  }

  /** The paths whose first byte is above `v`. */
  ghost function Above(at: Paths, v: byte): Paths {
    map p | p in at && (p == [] || v < p[0]) :: at[p]
  }

  /** What an insertion of a key that begins with `c` works on: everything, unless the root
  moves past the nodes below `c`. */
  ghost function Base(at: Paths, root: Option<byte>, c: byte): Paths {
    if Moves(at.Keys, root, c) then Above(at, Lower(c)) else at
  }

  ghost predicate Closed(at: Paths) {
    forall p :: p in at && p != [] ==> p[..|p| - 1] in at
  }

  lemma {:induction false} ClosedPrefix(at: Paths, k: Text, i: nat)
    requires Closed(at) && k in at && i <= |k|
    ensures k[..i] in at
    decreases |k|
  {
    if i < |k| {
      ClosedPrefix(at, k[..|k| - 1], i);
      assert k[..|k| - 1][..i] == k[..i];
    } else {
      assert k[..i] == k;
    }
  }

  /** Every path begins with the value of a top-level node. */
  lemma TopIndex(s: Shape<Option<Text>>, p: Text) returns (i: nat)
    requires s.Sound() && p in s.at && p != []
    ensures i < |s.kids[null]| && p[..1] in s.at && s.at[p[..1]] == s.kids[null][i]
    ensures s.kids[null][i].value == p[0] && IsLower(p[0])
  {
    hide Shape.ListsAreSound;
    assert Closed(s.at) by {
      assert forall q :: q in s.at && q != [] ==> s.Spelled(q);
    }
    ClosedPrefix(s.at, p, 1);
    assert s.Spelled(p[..1]) && p[..1][..0] == [];
    i :| 0 <= i < |s.kids[null]| && s.kids[null][i] == s.at[p[..1]];
  }

  lemma HiddenStays(at: Paths, v: byte)
    ensures forall n :: n !in at.Values ==> n !in Above(at, v).Values
  {
  }

  lemma AboveOrBelow(s: Shape<Option<Text>>, pos: nat, v: byte, p: Text)
    requires s.Sound() && pos <= |s.kids[null]| && p in s.at && p != []
    requires forall i :: 0 <= i < pos ==> s.kids[null][i].value < v
    requires forall i :: pos <= i < |s.kids[null]| && IsLower(s.kids[null][i].value) ==> v < s.kids[null][i].value
    ensures p[..1] in s.at && (InList(s.at[p[..1]], s.kids[null][pos..]) <==> v < p[0])
    ensures pos == 0 ==> v < p[0]
  {
    hide Shape.PathsAreSound, Ordered;
    var top := s.kids[null][pos..];
    var i := TopIndex(s, p);
    if pos <= i {
      assert top[i - pos] == s.at[p[..1]];
    }
  }

  /** Dropping the top-level nodes below `v` leaves the paths above it. */
  lemma ChoppedAbove(s: Shape<Option<Text>>, pos: nat, v: byte)
    requires s.Sound() && pos <= |s.kids[null]|
    requires forall i :: 0 <= i < pos ==> s.kids[null][i].value < v
    requires forall i :: pos <= i < |s.kids[null]| && IsLower(s.kids[null][i].value) ==> v < s.kids[null][i].value
    ensures Chopped(s, pos).at == Above(s.at, v)
    ensures pos == 0 ==> Above(s.at, v) == s.at
  {
    hide Shape.PathsAreSound, Ordered;
    var top := s.kids[null][pos..];
    forall p | p in s.at && p != []
      ensures p[..1] in s.at && (InList(s.at[p[..1]], top) <==> v < p[0])
      ensures pos == 0 ==> v < p[0]
    {
      AboveOrBelow(s, pos, v, p);
    }
  }

  lemma TopFound(s: Shape<Option<Text>>, val: byte, pos: nat)
    requires s.Sound() && Spot(s.kids[null], pos, val, true)
    ensures [Lower(val)] in s.at && s.kids[null][0].value <= s.kids[null][pos].value == Lower(val)
  {
    hide Shape.Spelled, Fits;
    var ks := s.kids[null];
    assert s.Met([], ks[pos]);
    assert Ordered(ks);
    assert [] + [Lower(val)] == [Lower(val)];
  }

  lemma TopMissing(s: Shape<Option<Text>>, val: byte, pos: nat)
    requires s.Sound() && Spot(s.kids[null], pos, val, false)
    ensures [Lower(val)] !in s.at
    ensures pos == 0 ==> s.kids[null] == [] || val < s.kids[null][0].value
    ensures 0 < pos && IsLower(val) ==> s.kids[null][0].value < val
  {
    NotYetAPath(s, [], pos, Lower(val));
    assert [] + [Lower(val)] == [Lower(val)];
  }

  /** The view when the root moves to the new node `r`. */
  lemma TopChopped(was: Shape<Option<Text>>, now: Shape<Option<Text>>, val: byte, r: TreeNode, pos: nat)
    requires was.Sound() && Spot(was.kids[null], pos, val, false) && r !in was.kids && r.value == val
    requires now.Sound() && now == Grown(was, null, pos, r, Some([])) && !IsLower(val)
    ensures now.at == was.at && now.kids[null] == InsertAt(was.kids[null], pos, r)
    ensures Chopped(now, pos).at == Above(was.at, Lower(val))
    ensures pos == 0 ==> Above(was.at, Lower(val)) == was.at
  {
    hide InsertAt, Shape.Sound, Chopped, Above;
    var ks := now.kids[null];
    assert forall i :: pos < i < |ks| ==> ks[i] == was.kids[null][i - 1];
    ChoppedAbove(now, pos, Lower(val));
  }

  lemma IsSound(t: Trie<Option<Text>>)
    requires t.Valid()
    ensures t.shape.Sound() && null in t.shape.kids && t.root == At(t.shape.kids[null], 0)
  {
  }

  /** The top level of `tree_insert`. What stands before the new root is lost. */
  method AddTop(t: Trie<Option<Text>>, val: byte) returns (r: TreeNode)
    requires t.Valid()
    modifies t, t.nodes`nextChild, t.nodes`nextSibling
    ensures t.Valid() && fresh(t.nodes - old(t.nodes)) && (r !in old(t.nodes) ==> r.adapted == None)
    ensures PathOf(old(t.shape).at, Some([]), val).Some? ==>
      Reaches(old(t.shape).at, old(t.nodes), t.shape.at, t.nodes, Some([]), val, r)
    ensures PathOf(old(t.shape).at, Some([]), val).None? ==>
      Stands(t.shape.at, t.nodes, r, None) && t.shape.at == Base(old(t.shape).at, old(RootOf(t)), val)
    ensures old(t.nodes) <= t.nodes <= old(t.nodes) + {r}
    ensures RootOf(t) == RootAfter(old(t.shape).at.Keys, old(RootOf(t)), val)
  {
    hide Trie.Valid, Ordered, Chopped, Above, Fits, Shape.Sound, Grown;
    HiddenStays(t.shape.at, Lower(val));
    t.OnPaths();
    t.Siblings(null);
    ghost var was, pos, exact := t.shape, 0, false;
    IsSound(t);
    r, pos, exact := AddSibling(t, t.root, val, null, Some([]));
    IsSound(t);
    if exact {
      TopFound(was, val, pos);
    } else {
      TopMissing(was, val, pos);
      if !IsLower(val) {
        TopChopped(was, t.shape, val, r, pos);
      }
    }
    if t.root == null || r.value < t.root.value {
      t.SetRoot(r, pos);
    }
  }
  /** The bytes of a C string that an insertion reads: the terminator of an empty one. */
  function RawKey(v: Text): (k: Text)
    ensures k != []
  {
    if v == [] then [NUL] else v
  }

  function KeyOf(v: Text): (k: Text)
    ensures k != [] && IsLowerText(k)
  {
    LowerText(RawKey(v))
  }

  /** The byte at `s` is no upper-case letter, or leads to a node already there. */
  predicate GoodAt(paths: set<Text>, raw: Text, s: nat)
    requires s < |raw|
  {
    IsLower(raw[s]) || LowerText(raw)[..s + 1] in paths
  }

  /** How many bytes of a key come before the first one that is lost. */
  function GoodLen(paths: set<Text>, raw: Text): (g: nat)
    ensures g <= |raw|
    ensures forall s :: 0 <= s < g ==> GoodAt(paths, raw, s)
    ensures g < |raw| ==> !GoodAt(paths, raw, g)
  {
    GoodFrom(paths, raw, 0)
  }

  function GoodFrom(paths: set<Text>, raw: Text, from: nat): (g: nat)
    requires from <= |raw|
    ensures from <= g <= |raw|
    ensures forall s :: from <= s < g ==> GoodAt(paths, raw, s)
    ensures g < |raw| ==> !GoodAt(paths, raw, g)
    decreases |raw| - from
  {
    if from < |raw| && GoodAt(paths, raw, from) then GoodFrom(paths, raw, from + 1) else from
  }

  /** Only the paths that the key itself can meet matter. */
  lemma GoodLenAgrees(a: set<Text>, b: set<Text>, raw: Text)
    requires forall p :: p != [] ==> (p in a <==> p in b)
    ensures GoodLen(a, raw) == GoodLen(b, raw)
  {
    hide GoodLen;
    assert forall s :: 0 <= s < |raw| ==> (GoodAt(a, raw, s) <==> GoodAt(b, raw, s));
  }

  /** The insertion will be found again: what a caller can check beforehand. */
  predicate Good(d: Dict, v: Text) {
    GoodLen(d.paths, RawKey(v)) == |RawKey(v)|
  }

  /** The walk down the trie after `s` bytes of the key: on the path of those bytes, or
  for good on nodes that no search reaches. */
  ghost predicate OpenedTo(base: Paths, nodes: set<TreeNode>, now: Paths, nodes1: set<TreeNode>,
                           raw: Text, s: nat, aux: TreeNode, p: Option<Text>)
    requires s <= |raw|
  {
    var k, g := LowerText(raw), GoodLen(base.Keys, raw);
    && nodes <= nodes1 && Stands(now, nodes1, aux, p)
    && Extends(base, nodes, now, k[..if s <= g then s else g])
    && p == if s <= g then Some(k[..s]) else None
  }

  /** One more byte of the key. */
  lemma OpenedStep(base: Paths, nodes: set<TreeNode>, mid: Paths, nodes1: set<TreeNode>, now: Paths,
                   nodes2: set<TreeNode>, raw: Text, s: nat, aux: TreeNode, p: Option<Text>, r: TreeNode)
    requires s < |raw| && OpenedTo(base, nodes, mid, nodes1, raw, s, aux, p)
    requires Reaches(mid, nodes1, now, nodes2, p, raw[s], r)
    ensures OpenedTo(base, nodes, now, nodes2, raw, s + 1, r, PathOf(mid, p, raw[s]))
  {
    hide Extends, GoodLen;
    var k := LowerText(raw);
    assert k[..s + 1] == k[..s] + [Lower(raw[s])];
    if p.Some? {
      InMidOrWas(base, nodes, mid, k, s);
      ExtendsStep(base, nodes, mid, now, k, s);
      assert s < GoodLen(base.Keys, raw) <==> GoodAt(base.Keys, raw, s);
    }
  }

  /** What was opened so far says nothing of a longer path. */
  lemma InMidOrWas(was: Paths, nodes: set<TreeNode>, mid: Paths, k: Text, s: nat)
    requires s < |k| && Extends(was, nodes, mid, k[..s])
    ensures k[..s + 1] in mid <==> k[..s + 1] in was
  {
    InPrefixes(k[..s], k[..s + 1]);
  }

  ghost predicate OneMore(mid: Paths, nodes: set<TreeNode>, now: Paths, q: Text) {
    && q in now && (q in mid ==> now == mid)
    && (q !in mid ==> now[q] != null && now[q] !in nodes && now == mid[q := now[q]])
  }

  lemma ExtendsStep(was: Paths, nodes: set<TreeNode>, mid: Paths, now: Paths, k: Text, s: nat)
    requires s < |k| && Extends(was, nodes, mid, k[..s])
    ensures OneMore(mid, nodes, now, k[..s + 1]) ==> Extends(was, nodes, now, k[..s + 1])
  {
    var q := k[..s + 1];
    PrefixesStep(k, s);
    if OneMore(mid, nodes, now, q) {
      assert now.Keys == mid.Keys + {q};
    }
  }

  /** The first byte of the key. */
  lemma OpenedTop(was: Paths, root: Option<byte>, nodes: set<TreeNode>, now: Paths, nodes1: set<TreeNode>,
                  raw: Text, r: TreeNode)
    requires raw != [] && nodes <= nodes1
    requires PathOf(was, Some([]), raw[0]).Some? ==> Reaches(was, nodes, now, nodes1, Some([]), raw[0], r)
    requires PathOf(was, Some([]), raw[0]).None? ==>
      Stands(now, nodes1, r, None) && now == Base(was, root, raw[0])
    ensures OpenedTo(Base(was, root, raw[0]), nodes, now, nodes1, raw, 1, r, PathOf(was, Some([]), raw[0]))
  {
    hide Extends, GoodLen;
    var k, base := LowerText(raw), Base(was, root, raw[0]);
    assert k[..1] == [] + [Lower(raw[0])] == [Lower(raw[0])] && k[..0] == [];
    assert 0 < GoodLen(base.Keys, raw) <==> GoodAt(base.Keys, raw, 0);
    ExtendsNone(base, nodes);
    ExtendsStep(base, nodes, base, now, k, 0);
  }

  /** The loop of `tree_insert`: the node at the end of the key, and its path if it has one. */
  method Open(t: Trie<Option<Text>>, v: Text) returns (aux: TreeNode, ghost p: Option<Text>)
    requires t.Valid()
    modifies t, t.nodes`nextChild, t.nodes`nextSibling
    ensures t.Valid() && fresh(t.nodes - old(t.nodes))
    ensures forall n :: n in t.nodes && n !in old(t.nodes) ==> n.adapted == None
    ensures var (raw, base) := (RawKey(v), Base(old(t.shape).at, old(RootOf(t)), RawKey(v)[0]));
      OpenedTo(base, old(t.nodes), t.shape.at, t.nodes, raw, |raw|, aux, p)
    ensures RootOf(t) == RootAfter(old(t.shape).at.Keys, old(RootOf(t)), RawKey(v)[0])
  {
    hide Trie.Valid, OpenedTo, Extends, Reaches, PathOf, Base, RootAfter;
    ghost var raw, was, nodes := RawKey(v), t.shape.at, t.nodes;
    ghost var root := RootOf(t);
    ghost var base := Base(was, root, raw[0]);
    t.OnPaths();
    aux := AddTop(t, if v == [] then NUL else v[0]);
    OpenedTop(was, root, nodes, t.shape.at, t.nodes, raw, aux);
    p := PathOf(was, Some([]), raw[0]);
    var s := 1;
    while s < |v|
      invariant 1 <= s <= |raw| && t.Valid() && fresh(t.nodes - nodes)
      invariant forall n :: n in t.nodes && n !in nodes ==> n.adapted == None
      invariant OpenedTo(base, nodes, t.shape.at, t.nodes, raw, s, aux, p)
      invariant RootOf(t) == RootAfter(was.Keys, root, raw[0])
    {
      aux, p := Descend(t, aux, v[s], base, nodes, raw, s, p);
      s := s + 1;
    }
  }

  method Descend(t: Trie<Option<Text>>, aux: TreeNode, c: byte, ghost base: Paths, ghost nodes: set<TreeNode>,
                 ghost raw: Text, ghost s: nat, ghost p: Option<Text>) returns (r: TreeNode, ghost q: Option<Text>)
    requires s < |raw| && raw[s] == c && t.Valid()
    requires forall n :: n in t.nodes && n !in nodes ==> n.adapted == None
    requires OpenedTo(base, nodes, t.shape.at, t.nodes, raw, s, aux, p)
    modifies t, t.nodes`nextChild, t.nodes`nextSibling
    ensures t.Valid() && fresh(t.nodes - old(t.nodes)) && RootOf(t) == old(RootOf(t))
    ensures forall n :: n in t.nodes && n !in nodes ==> n.adapted == None
    ensures OpenedTo(base, nodes, t.shape.at, t.nodes, raw, s + 1, r, q)
  {
    hide Trie.Valid, Extends, PathOf, GoodLen;
    t.OnPaths();
    ghost var mid, nodes1 := t.shape.at, t.nodes;
    r := AddChild(t, aux, c, p);
    OpenedStep(base, nodes, mid, nodes1, t.shape.at, t.nodes, raw, s, aux, p, r);
    q := PathOf(mid, p, c);
  }

  /** The dictionary that the trie stands for; an empty text is a replacement too. */
  ghost function View(t: Trie<Option<Text>>): Dict
    reads t, t.nodes
  {
    ViewOf(t.shape.at, Texts(t))
  }

  ghost function Texts(t: Trie<Option<Text>>): map<TreeNode, Option<Text>>
    reads t, t.nodes
  {
    map n | n in t.nodes :: n.adapted
  }

  /** What insertions depend on: the dictionary, and the value of the root. */
  datatype Content = Content(d: Dict, root: Option<byte>)

  ghost function ContentOf(t: Trie<Option<Text>>): Content
    reads t, t.nodes
  {
    Content(View(t), RootOf(t))
  }

  /** The insertion loses every path and rule that begins below its first byte. */
  predicate MovesRoot(c: Content, v: Text) {
    Moves(c.d.paths, c.root, RawKey(v)[0])
  }

  function DictAbove(d: Dict, v: byte): Dict {
    Dict(set p | p in d.paths && (p == [] || v < p[0]), map k | k in d.rule && (k == [] || v < k[0]) :: d.rule[k])
  }

  /** What an insertion does, whatever the key: first the root may move; then the key's
  beginning is opened up to the first byte that is lost; the rule is added when none is, and
  the first one stays. */
  function Inserted(c: Content, v: Text, adapted: Option<Text>): Content {
    var raw, k := RawKey(v), KeyOf(v);
    var d := if MovesRoot(c, v) then DictAbove(c.d, Lower(raw[0])) else c.d;
    var g := GoodLen(d.paths, raw);
    Content(Dict(d.paths + Prefixes(k[..g]),
      if g < |raw| || k in d.rule then d.rule else d.rule[k := adapted.GetOr([])]),
            RootAfter(c.d.paths, c.root, raw[0]))
  }

  type TextMap = map<TreeNode, Option<Text>>

  /** The node at the end of the key keeps its text, or gets one when it had none. */
  ghost function Settle(texts: TextMap, aux: TreeNode, adapted: Option<Text>): TextMap {
    if aux in texts && texts[aux].Some? then texts else texts[aux := Some(adapted.GetOr([]))]
  }

  ghost predicate TextsKept(was: Paths, texts: TextMap, texts1: TextMap) {
    && (forall n :: n in texts1 && n !in texts ==> texts1[n] == None)
    && (forall n :: n in texts ==> n in texts1 && texts1[n] == texts[n])
    && (forall p :: p in was && p != [] ==> was[p] in texts)
  }

  ghost predicate OneToOne(at: Paths) {
    forall p, q :: p in at && q in at && at[p] == at[q] ==> p == q
  }

  lemma SettledGood(was: Paths, texts: TextMap, now: Paths, texts1: TextMap,
    aux: TreeNode, k: Text, adapted: Option<Text>)
    requires k != [] && k in now && now[k] == aux && aux in texts1 && OneToOne(now)
    requires Extends(was, texts.Keys, now, k) && TextsKept(was, texts, texts1)
    ensures var d := ViewOf(was, texts);
      ViewOf(now, Settle(texts1, aux, adapted)) ==
        Dict(d.paths + Prefixes(k), if k in d.rule then d.rule else d.rule[k := adapted.GetOr([])])
  {
    hide ViewOf, Extends;
    ViewOpened(was, texts, now, texts1, k);
    RuleOfPath(now, texts1, k);
    if texts1[aux].None? {
      ViewSet(now, texts1, aux, k, Some(adapted.GetOr([])));
    }
  }

  lemma SameView(at: Paths, texts: TextMap, texts1: TextMap)
    requires forall p :: p in at && p != [] ==> TextAt(at[p], texts) == TextAt(at[p], texts1)
    ensures ViewOf(at, texts) == ViewOf(at, texts1)
  {
  }

  lemma ExtendsNothing(was: Paths, nodes: set<TreeNode>, now: Paths)
    requires Extends(was, nodes, now, [])
    ensures now == was
  {
    assert Prefixes([]) == {};
  }

  /** A text at a node without a path is not seen. */
  lemma SettledBad(was: Paths, texts: TextMap, now: Paths, texts1: TextMap,
    aux: TreeNode, k: Text, adapted: Option<Text>)
    requires aux !in now.Values && TextsKept(was, texts, texts1) && Extends(was, texts.Keys, now, k)
    ensures var d := ViewOf(was, texts);
      ViewOf(now, Settle(texts1, aux, adapted)) == Dict(d.paths + Prefixes(k), d.rule)
  {
    hide ViewOf, Extends;
    if k == [] {
      assert Prefixes(k) == {};
      ExtendsNothing(was, texts.Keys, now);
      SameView(was, texts, texts1);
      assert ViewOf(was, texts).paths + {} == ViewOf(was, texts).paths;
    } else {
      ViewOpened(was, texts, now, texts1, k);
    }
    forall p | p in now
      ensures now[p] != aux
    {
      assert now[p] in now.Values;
    }
    SameView(now, texts1, Settle(texts1, aux, adapted));
  }

  lemma Settled(base: Paths, texts: TextMap, now: Paths, texts1: TextMap, aux: TreeNode, p: Option<Text>,
                v: Text, adapted: Option<Text>)
    requires OpenedTo(base, texts.Keys, now, texts1.Keys, RawKey(v), |RawKey(v)|, aux, p)
    requires OneToOne(now) && TextsKept(base, texts, texts1)
    ensures var (d, raw, k) := (ViewOf(base, texts), RawKey(v), KeyOf(v));
      var g := GoodLen(d.paths, raw);
      ViewOf(now, Settle(texts1, aux, adapted)) ==
        Dict(d.paths + Prefixes(k[..g]), if g < |raw| || k in d.rule then d.rule else d.rule[k := adapted.GetOr([])])
  {
    hide ViewOf, Extends, GoodLen, TextsKept, OneToOne, Settle;
    var d, raw, k := ViewOf(base, texts), RawKey(v), KeyOf(v);
    PathsOfView(base, texts);
    GoodLenAgrees(base.Keys, d.paths, raw);
    assert k[..|raw|] == k;
    if p.Some? {
      SettledGood(base, texts, now, texts1, aux, k, adapted);
    } else {
      SettledBad(base, texts, now, texts1, aux, k[..GoodLen(d.paths, raw)], adapted);
    }
  }

  lemma PathsOfView(at: Paths, texts: TextMap)
    ensures forall p :: p != [] ==> (p in at.Keys <==> p in ViewOf(at, texts).paths)
  {
  }

  /** Losing the paths below a byte. */
  lemma ViewAbove(at: Paths, texts: TextMap, v: byte)
    ensures ViewOf(Above(at, v), texts) == DictAbove(ViewOf(at, texts), v)
  {
    var d, e := DictAbove(ViewOf(at, texts), v), ViewOf(Above(at, v), texts);
    assert e.paths == d.paths;
    assert e.rule == d.rule;
  }

  lemma ViewOfBase(at: Paths, texts: TextMap, root: Option<byte>, v: Text)
    ensures var c := Content(ViewOf(at, texts), root);
      && ViewOf(Base(at, root, RawKey(v)[0]), texts) ==
         (if MovesRoot(c, v) then DictAbove(c.d, Lower(RawKey(v)[0])) else c.d)
      && RootAfter(at.Keys, root, RawKey(v)[0]) == RootAfter(c.d.paths, root, RawKey(v)[0])
  {
    hide ViewOf, DictAbove;
    PathsOfView(at, texts);
    ViewAbove(at, texts, Lower(RawKey(v)[0]));
  }

  /** `tree_insert`: its whole effect, for every key. */
  method TreeInsert(t: Trie<Option<Text>>, v: Text, adapted: Option<Text>)
    requires t.Valid()
    modifies t, t.nodes
    ensures t.Valid() && fresh(t.nodes - old(t.nodes))
    ensures ContentOf(t) == Inserted(old(ContentOf(t)), v, adapted)
  {
    hide Trie.Valid, OpenedTo, ViewOf, Base, RootAfter, GoodLen, DictAbove, MovesRoot, RawKey, KeyOf, Settle;
    ghost var was, texts, root := t.shape.at, Texts(t), RootOf(t);
    t.OnPaths();
    assert texts.Keys == t.nodes;
    var aux, p := Open(t, v);
    t.OnPaths();
    ghost var now, texts1 := t.shape.at, Texts(t);
    ghost var base := Base(was, root, RawKey(v)[0]);
    assert texts1.Keys == t.nodes;
    AuxStands(was, root, texts, now, texts1, v, aux, p);
    SetText(t, aux, adapted);
    Settled(base, texts, now, texts1, aux, p, v, adapted);
    ViewOfBase(was, texts, root, v);
  }

  /** The node at the end of the key gets its text. */
  method SetText(t: Trie<Option<Text>>, aux: TreeNode, adapted: Option<Text>)
    requires aux in t.nodes
    modifies aux`adapted
    ensures Texts(t) == Settle(old(Texts(t)), aux, adapted)
  {
    if aux.adapted == None {
      aux.adapted := Some(adapted.GetOr([]));
    }
    assert Texts(t) == Settle(old(Texts(t)), aux, adapted);
  }

  lemma AuxStands(was: Paths, root: Option<byte>, texts: TextMap, now: Paths, texts1: TextMap, v: Text,
                  aux: TreeNode, p: Option<Text>)
    requires OpenedTo(Base(was, root, RawKey(v)[0]), texts.Keys, now, texts1.Keys, RawKey(v), |RawKey(v)|, aux, p)
    ensures aux in texts1 && texts.Keys <= texts1.Keys
    ensures forall q :: q in Base(was, root, RawKey(v)[0]) ==> q in was && was[q] == Base(was, root, RawKey(v)[0])[q]
  {
  }

  /** `tree_get_sibling` from the first child of the node at `p`. */
  method GetSibling(ghost t: Trie<Option<Text>>, first: Node?<Option<Text>>, val: byte, ghost p: Text)
    returns (r: Node?<Option<Text>>)
    requires t.Valid() && p in t.shape.at && t.shape.at[p] in t.shape.kids &&
      first == At(t.shape.kids[t.shape.at[p]], 0)
    ensures r == Lookup(t.shape.at, p + [Lower(val)])
  {
    hide Trie.Valid, Fits;
    ghost var o := t.shape.at[p];
    var exact;
    ghost var pos;
    r, exact, pos := GetSibling2(t, first, val, false, o);
    if exact {
      t.ChildPath(p, pos);
    } else {
      t.NoChildPath(p, pos, Lower(val));
    }
  }

  /** `tree_get_child`. */
  method GetChild(ghost t: Trie<Option<Text>>, n: Node?<Option<Text>>, val: byte, ghost p: Text)
    returns (r: Node?<Option<Text>>)
    requires t.Valid() && (n != null ==> p in t.shape.at && t.shape.at[p] == n)
    ensures r == if n == null then null else Lookup(t.shape.at, p + [Lower(val)])
  {
    hide Trie.Valid;
    if n == null {
      return null;
    }
    t.OnPaths();
    t.Siblings(n);
    r := GetSibling(t, n.nextChild, val, p);
  }

  /** The node of a path, seen in the dictionary. */
  lemma NodeIsView(t: Trie<Option<Text>>, k: Text, r: Node?<Option<Text>>)
    requires t.Valid() && k != [] && r == Lookup(t.shape.at, k)
    ensures r != null <==> k in View(t).paths
    ensures r != null && r.adapted.Some? <==> k in View(t).rule
    ensures r != null && r.adapted.Some? ==> r.adapted.value == View(t).rule[k]
  {
    hide Trie.Valid;
    t.OnPaths();
    RuleOfPath(t.shape.at, Texts(t), k);
  }

  /** Following `q` byte by byte finds the node of `q`, ignoring case, if there is one. */
  method Walk(t: Trie<Option<Text>>, q: Text) returns (r: Node?<Option<Text>>)
    requires t.Valid() && q != []
    ensures r == Lookup(t.shape.at, LowerText(q))
    ensures r != null <==> LowerText(q) in View(t).paths
    ensures r != null && r.adapted.Some? <==> LowerText(q) in View(t).rule
    ensures r != null && r.adapted.Some? ==> r.adapted.value == View(t).rule[LowerText(q)]
  {
    hide Trie.Valid, View;
    ghost var k := LowerText(q);
    t.OnPaths();
    t.Siblings(null);
    r := GetSibling(t, t.root, q[0], []);
    assert [] + [k[0]] == k[..1];
    var s := 1;
    while s < |q|
      invariant 1 <= s <= |q|
      invariant r == Lookup(t.shape.at, k[..s])
    {
      assert k[..s + 1][..s] == k[..s] && k[..s + 1] == k[..s] + [k[s]];
      r := GetChild(t, r, q[s], k[..s]);
      s := s + 1;
    }
    assert k[..s] == k;
    NodeIsView(t, k, r);
  }
}
