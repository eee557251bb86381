/** faproxy's rule trie (`faproxy/src/tree.c`): keys are lower-cased on the way in. */
module FaTrie {
  import opened Bytes
  import opened Wrappers
  import opened Rules
  import opened TrieHeap
  import opened TrieView

  const MAX_STR: nat := 1024

  type TreeNode = Node<Text>

  type Paths = map<Text, Node?<Text>>

  /** `r` is the node of the path `q`: there already, or the one new node. */
  ghost predicate Reaches(was: Paths, nodes: set<TreeNode>, now: Paths, nodes': set<TreeNode>, q: Text, r: TreeNode) {
    && r in nodes' && q in now && now[q] == r
    && (q in was ==> now == was && nodes' == nodes)
    && (q !in was ==> r !in nodes && nodes' == nodes + {r} && now == was[q := r])
  }

  /** `tree_add_sibling`: finds `val` from `n` on, or puts a new node in its place.
  No caller passes a value below that of `n`. */
  method AddSibling(t: Trie<Text>, n: TreeNode, val: byte, ghost o: Node?<Text>, ghost p: Text) returns (r: TreeNode)
    requires t.Valid() && p in t.shape.at && t.shape.at[p] == o
    requires o in t.shape.kids && n == At(t.shape.kids[o], 0) && n.value <= val && IsLower(val)
    modifies t, t.nodes`nextChild, t.nodes`nextSibling
    ensures t.Valid() && fresh(t.nodes - old(t.nodes)) && (r !in old(t.nodes) ==> r.adapted == [])
    ensures Reaches(old(t.shape).at, old(t.nodes), t.shape.at, t.nodes, p + [val], r)
  {
    hide Trie.Valid, Ordered, Fits, Grown;
    ghost var ks, pos := t.shape.kids[o], 0;
    t.Siblings(o);
    var cur: Node?<Text>, prev: Node?<Text> := n, null;
    while cur != null && val > cur.value
      invariant pos <= |ks| && cur == At(ks, pos)
      invariant prev == if pos == 0 then null else ks[pos - 1]
      invariant forall i :: 0 <= i < pos ==> ks[i].value < val
      modifies {}
      decreases |ks| - pos
    {
      t.NextSibling(o, pos);
      prev := cur;
      cur := cur.nextSibling;
      pos := pos + 1;
    }
    if cur != null && val == cur.value {
      t.ChildPath(p, pos);
      return cur;
    }
    FitsBefore(ks, pos, val);
    r := new Node(val, []);
    if prev == null {
      assert false;
    } else {
      PutLower(t, null, prev, cur, r, o, pos, p);
    }
  }

  method PutLower(t: Trie<Text>, owner: Node?<Text>, prev: Node?<Text>, cur: Node?<Text>, r: TreeNode,
                  ghost o: Node?<Text>, ghost pos: nat, ghost p: Text)
    requires prev == null ==> owner == o
    requires t.Valid() && p in t.shape.at && t.shape.at[p] == o && o in t.shape.kids
    requires r !in t.nodes && r !in t.shape.kids && r.nextChild == null && r.adapted == [] && IsLower(r.value)
    requires pos <= |t.shape.kids[o]| && Fits(t.shape.kids[o], pos, r.value)
    requires prev == (if pos == 0 then null else t.shape.kids[o][pos - 1]) && cur == At(t.shape.kids[o], pos)
    modifies t, t.nodes`nextChild, t.nodes`nextSibling, r`nextSibling
    ensures t.Valid() && t.nodes == old(t.nodes) + {r}
    ensures Reaches(old(t.shape).at, old(t.nodes), t.shape.at, t.nodes, p + [r.value], r)
    ensures p + [r.value] !in old(t.shape).at
  {
    hide Shape.Sound, Fits, Grown;
    GrownIsSound(t.shape, o, pos, r, Some(p));
    t.Put(owner, prev, cur, r, o, pos, Some(p));
  }

  /** `tree_add_child`. */
  method AddChild(t: Trie<Text>, n: TreeNode, val: byte, ghost p: Text) returns (r: TreeNode)
    requires t.Valid() && p in t.shape.at && t.shape.at[p] == n && n in t.shape.kids && IsLower(val)
    modifies t, t.nodes`nextChild, t.nodes`nextSibling
    ensures t.Valid() && fresh(t.nodes - old(t.nodes)) && (r !in old(t.nodes) ==> r.adapted == [])
    ensures Reaches(old(t.shape).at, old(t.nodes), t.shape.at, t.nodes, p + [val], r)
  {
    hide Trie.Valid, Ordered, Grown;
    t.Siblings(n);
    if n.nextChild != null && n.nextChild.value <= val {
      r := AddSibling(t, n.nextChild, val, n, p);
    } else {
      FitsBefore(t.shape.kids[n], 0, val);
      r := new Node(val, []);
      PutLower(t, n, null, n.nextChild, r, n, 0, p);
    }
  }

  /** The top level of `tree_insert`: as for a child, but of no node. */
  method AddTop(t: Trie<Text>, val: byte) returns (r: TreeNode)
    requires t.Valid() && [] in t.shape.at && t.shape.at[[]] == null && null in t.shape.kids && IsLower(val)
    modifies t, t.nodes`nextChild, t.nodes`nextSibling
    ensures t.Valid() && fresh(t.nodes - old(t.nodes)) && (r !in old(t.nodes) ==> r.adapted == [])
    ensures Reaches(old(t.shape).at, old(t.nodes), t.shape.at, t.nodes, [val], r)
  {
    hide Trie.Valid, Ordered, Grown;
    t.Siblings(null);
    if t.root != null && t.root.value <= val {
      assert [] + [val] == [val];
      r := AddSibling(t, t.root, val, null, []);
    } else {
      FitsBefore(t.shape.kids[null], 0, val);
      r := new Node(val, []);
      PutLower(t, null, null, t.root, r, null, 0, []);
      assert [] + [val] == [val];
    }
  }

  /** The bytes of a C string that an insertion reads: the terminator of an empty one. */
  function KeyOf(v: Text): (k: Text)
    ensures k != [] && IsLowerText(k)
  {
    LowerText(if v == [] then [NUL] else v)
  }

  lemma KeyIsLowered(v: Text)
    ensures KeyOf(v) == if v == [] then [0] else LowerText(v)
  {
  }

  /** What fits in a node's text field. */
  function Stored(text: Text): Text {
    if |text| < MAX_STR then text else text[..MAX_STR - 1]
  }

  /** The beginning of the text, all of it up to 1023 bytes. */
  lemma StoredIsBeginning(text: Text)
    ensures Stored(text) <= text
    ensures |Stored(text)| == if |text| <= 1023 then |text| else 1023
  {
  }

  /** The dictionary that the trie stands for; an empty text is no replacement. */
  ghost function View(t: Trie<Text>): Dict
    reads t, t.nodes
  {
    ViewOf(t.shape.at, Texts(t))
  }

  ghost function Texts(t: Trie<Text>): map<TreeNode, Option<Text>>
    reads t, t.nodes
  {
    map n | n in t.nodes :: NonEmpty(n.adapted)
  }

  function NonEmpty(text: Text): Option<Text> {
    if text == [] then None else Some(text)
  }

  /** What one insertion does to the dictionary. */
  function Inserted(d: Dict, v: Text, adapted: Option<Text>, suffix: Text): Dict {
    var k := KeyOf(v);
    var paths := d.paths + Prefixes(k);
    if adapted.None? then Dict(paths, d.rule)
    else
      var text := Stored(adapted.value + suffix);
      Dict(paths, if text == [] then d.rule - {k} else d.rule[k := text])
  }

  lemma ExtendsStep(was: Paths, nodes: set<TreeNode>, mid: Paths,
    nodes1: set<TreeNode>, now: Paths, nodes2: set<TreeNode>,
                    k: Text, s: nat, r: TreeNode)
    requires s < |k| && Extends(was, nodes, mid, k[..s]) && nodes <= nodes1
    requires Reaches(mid, nodes1, now, nodes2, k[..s + 1], r)
    ensures Extends(was, nodes, now, k[..s + 1])
    ensures nodes1 <= nodes2 <= nodes1 + {r} && r in nodes2 && k[..s + 1] in now && now[k[..s + 1]] == r
  {
    var q := k[..s + 1];
    PrefixesStep(k, s);
    assert now.Keys == mid.Keys + {q};
  }

  /** `aux` is the node at the end of `k`; what is new on the way holds no replacement. */
  ghost predicate OpenedTo(t: Trie<Text>, was: Paths, nodes: set<TreeNode>, k: Text, aux: TreeNode)
    reads t, t.nodes
  {
    && nodes <= t.nodes && Extends(was, nodes, t.shape.at, k)
    && k in t.shape.at && t.shape.at[k] == aux && aux in t.nodes
    && forall n :: n in t.nodes && n !in nodes ==> n.adapted == []
  }

  /** The loop of `tree_insert`: the node at the end of the key. */
  method Open(t: Trie<Text>, v: Text) returns (aux: TreeNode)
    requires t.Valid()
    modifies t, t.nodes`nextChild, t.nodes`nextSibling
    ensures t.Valid() && fresh(t.nodes - old(t.nodes))
    ensures OpenedTo(t, old(t.shape).at, old(t.nodes), KeyOf(v), aux)
  {
    hide Trie.Valid, KeyOf, OpenedTo;
    ghost var k, was, nodes := KeyOf(v), t.shape.at, t.nodes;
    KeyStep(v, 0);
    aux := OpenTop(t, Lower(if v == [] then NUL else v[0]), k);
    var s := 1;
    while s < |v|
      invariant 1 <= s <= |k| && t.Valid() && fresh(t.nodes - nodes)
      invariant OpenedTo(t, was, nodes, k[..s], aux)
    {
      KeyStep(v, s);
      aux := Descend(t, aux, Lower(v[s]), was, nodes, k, s);
      s := s + 1;
    }
    assert k[..s] == k;
  }

  method OpenTop(t: Trie<Text>, c: byte, ghost k: Text) returns (r: TreeNode)
    requires t.Valid() && IsLower(c) && k != [] && k[..1] == k[..0] + [c]
    modifies t, t.nodes`nextChild, t.nodes`nextSibling
    ensures t.Valid() && fresh(t.nodes - old(t.nodes))
    ensures OpenedTo(t, old(t.shape).at, old(t.nodes), k[..1], r)
  {
    hide Trie.Valid, Extends, Prefixes, Reaches;
    ghost var was, nodes := t.shape.at, t.nodes;
    t.OnPaths();
    ExtendsNone(was, nodes);
    r := AddTop(t, c);
    assert k[..0] + [c] == [c];
    ExtendsStep(was, nodes, was, nodes, t.shape.at, t.nodes, k, 0, r);
  }

  method Descend(t: Trie<Text>, aux: TreeNode, c: byte,
    ghost was: Paths, ghost nodes: set<TreeNode>, ghost k: Text, ghost s: nat)
      returns (r: TreeNode)
    requires s < |k| && t.Valid() && OpenedTo(t, was, nodes, k[..s], aux)
    requires IsLower(c) && k[..s + 1] == k[..s] + [c]
    modifies t, t.nodes`nextChild, t.nodes`nextSibling
    ensures t.Valid() && fresh(t.nodes - old(t.nodes))
    ensures OpenedTo(t, was, nodes, k[..s + 1], r)
  {
    hide Trie.Valid, Extends, Prefixes, Reaches;
    t.OnPaths();
    ghost var mid, nodes1 := t.shape.at, t.nodes;
    r := AddChild(t, aux, c, k[..s]);
    ExtendsStep(was, nodes, mid, nodes1, t.shape.at, t.nodes, k, s, r);
  }

  lemma KeyStep(v: Text, s: nat)
    requires s < |KeyOf(v)|
    ensures |KeyOf(v)| == if v == [] then 1 else |v|
    ensures KeyOf(v)[..s + 1] == KeyOf(v)[..s] + [Lower(if v == [] then NUL else v[s])]
  {
  }

  /** `tree_insert`. */
  method TreeInsert(t: Trie<Text>, v: Text, adapted: Option<Text>, suffix: Text)
    requires t.Valid()
    modifies t, t.nodes
    ensures t.Valid() && fresh(t.nodes - old(t.nodes))
    ensures View(t) == Inserted(old(View(t)), v, adapted, suffix)
  {
    hide Trie.Valid, Extends, Prefixes, KeyOf, Stored, ViewOf;
    ghost var was, texts := t.shape.at, Texts(t);
    t.OnPaths();
    assert texts.Keys == t.nodes;
    var aux := Open(t, v);
    ghost var now, texts1 := t.shape.at, Texts(t);
    t.OnPaths();
    ViewOpened(was, texts, now, texts1, KeyOf(v));
    if adapted.Some? {
      aux.adapted := Stored(adapted.value + suffix);
      assert Texts(t) == texts1[aux := NonEmpty(aux.adapted)];
      ViewSet(now, texts1, aux, KeyOf(v), NonEmpty(aux.adapted));
    }
  }

  /** `tree_get_sibling`: from the first child of `o` on, stopping at the first larger value. */
  method GetSibling(ghost t: Trie<Text>, first: Node?<Text>, val: byte, ghost p: Text) returns (r: Node?<Text>)
    requires t.Valid() && p in t.shape.at && t.shape.at[p] in t.shape.kids &&
      first == At(t.shape.kids[t.shape.at[p]], 0)
    ensures r == Lookup(t.shape.at, p + [Lower(val)])
  {
    hide Trie.Valid;
    ghost var o := t.shape.at[p];
    ghost var ks, pos := t.shape.kids[o], 0;
    t.Siblings(o);
    var value := Lower(val);
    var n := first;
    while n != null && value >= n.value
      invariant pos <= |ks| && n == At(ks, pos)
      invariant forall i :: 0 <= i < pos ==> ks[i].value < value
      decreases |ks| - pos
    {
      if n.value == value {
        t.ChildPath(p, pos);
        return n;
      }
      t.NextSibling(o, pos);
      n := n.nextSibling;
      pos := pos + 1;
    }
    FitsBefore(ks, pos, value);
    t.NoChildPath(p, pos, value);
    r := null;
  }

  /** `tree_get_child`. */
  method GetChild(ghost t: Trie<Text>, n: Node?<Text>, val: byte, ghost p: Text) returns (r: Node?<Text>)
    requires t.Valid() && (n != null ==> p in t.shape.at && t.shape.at[p] == n)
    ensures r == if n == null then null else Lookup(t.shape.at, p + [Lower(val)])
  {
    hide Trie.Valid;
    if n == null {
      return null;
    }
    t.OnPaths();
    t.Siblings(n);
    r := GetSibling(t, n.nextChild, val, p);
  }

  /** The node of a path, seen in the dictionary. */
  lemma NodeIsView(t: Trie<Text>, k: Text, r: Node?<Text>)
    requires t.Valid() && k != [] && r == Lookup(t.shape.at, k)
    ensures r != null <==> k in View(t).paths
    ensures r != null && r.adapted != [] <==> k in View(t).rule
    ensures r != null && r.adapted != [] ==> r.adapted == View(t).rule[k]
  {
    hide Trie.Valid;
    t.OnPaths();
    RuleOfPath(t.shape.at, Texts(t), k);
  }

  /** Following `q` byte by byte finds the node of `q`, ignoring case, if there is one. */
  method Walk(t: Trie<Text>, q: Text) returns (r: Node?<Text>)
    requires t.Valid() && q != []
    ensures r == Lookup(t.shape.at, LowerText(q))
    ensures r != null <==> LowerText(q) in View(t).paths
    ensures r != null && r.adapted != [] <==> LowerText(q) in View(t).rule
    ensures r != null && r.adapted != [] ==> r.adapted == View(t).rule[LowerText(q)]
  {
    hide Trie.Valid, View;
    ghost var k := LowerText(q);
    t.OnPaths();
    t.Siblings(null);
    r := GetSibling(t, t.root, q[0], []);
    assert [] + [k[0]] == k[..1];
    var s := 1;
    while s < |q|
      invariant 1 <= s <= |q|
      invariant r == Lookup(t.shape.at, k[..s])
    {
      assert k[..s + 1][..s] == k[..s] && k[..s + 1] == k[..s] + [k[s]];
      r := GetChild(t, r, q[s], k[..s]);
      s := s + 1;
    }
    assert k[..s] == k;
    NodeIsView(t, k, r);
  }
}
