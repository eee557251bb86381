/** Child/sibling tries on the heap: the linked nodes, and the ghost view of them as
ordered lists of children and as a map from paths to nodes. */
module TrieHeap {
  import opened Bytes
  import opened Wrappers
  import opened Sequences

  class Node<A> {
    const value: byte
    var adapted: A
    var nextChild: Node?<A>
    var nextSibling: Node?<A>

    constructor (value: byte, adapted: A)
      ensures this.value == value && this.adapted == adapted
      ensures nextChild == null && nextSibling == null
    {
      this.value, this.adapted := value, adapted;
      nextChild, nextSibling := null, null;
    }
  }

  /** The element at place `i`, or null past the end. */
  ghost function At<A>(ks: seq<Node<A>>, i: nat): Node?<A> {
    if i < |ks| then ks[i] else null
  }

  /** The siblings that a search for `v` can meet are in strictly increasing order.
  A node whose value is an upper-case letter is never met; it may stand anywhere. */
  ghost predicate Ordered<A>(ks: seq<Node<A>>) {
    && (forall i, j :: 0 <= i < j < |ks| ==> ks[i] != ks[j])
    && (forall i, j :: 0 <= i < j < |ks| && IsLower(ks[j].value) ==> ks[i].value < ks[j].value)
  }

  /** `kids`: the children of every node, those of null being the top level.
  `up`: the node that each node is a child of; `next`: its next sibling.
  `at`: the node that each path of lower-cased bytes leads to; the empty path
  leads to null. */
  datatype Shape<!A> = Shape(kids: map<Node?<A>, seq<Node<A>>>,
    up: map<Node<A>, Node?<A>>, next: map<Node<A>, Node?<A>>,
    at: map<Text, Node?<A>>) {

    ghost predicate ListsAreSound() {
      && null in kids
      && (forall o :: o in kids ==> Ordered(kids[o]))
      && (forall o, i :: o in kids && 0 <= i < |kids[o]| ==> Listed(kids[o][i], o, At(kids[o], i + 1)))
    }

    ghost predicate Listed(n: Node<A>, o: Node?<A>, after: Node?<A>) {
      n in kids && n in up && up[n] == o && n in next && next[n] == after
    }

    /** Every path spells the values on the way; every node met on a path is on one. */
    ghost predicate PathsAreSound() {
      && [] in at && at[[]] == null
      && (forall p :: p in at ==> at[p] in kids)
      && (forall p :: p in at && p != [] ==> Spelled(p))
      && (forall p, i :: p in at && 0 <= i < |kids[at[p]]| ==> Met(p, kids[at[p]][i]))
      && (forall p, q :: p in at && q in at && at[p] == at[q] ==> p == q)
    }

    ghost predicate Spelled(p: Text)
      requires p != [] && p in at
    {
      var n := at[p];
      var up := p[..|p| - 1];
      n != null && up in at && at[up] in kids && n in kids[at[up]] && n.value == p[|p| - 1] && IsLower(n.value)
    }

    ghost predicate Met(p: Text, n: Node<A>) {
      IsLower(n.value) ==> p + [n.value] in at && at[p + [n.value]] == n
    }

    ghost predicate Sound() {
      ListsAreSound() && PathsAreSound()
    }
  }

  /** `n`, with no children of its own yet, joins those of `o` at place `pos`. */
  ghost function WithKid<A>(s: Shape<A>, o: Node?<A>, pos: nat, n: Node<A>): (t: Shape<A>)
    requires o in s.kids && pos <= |s.kids[o]| && n !in s.kids
    ensures t.kids.Keys == s.kids.Keys + {n} && t.kids[n] == [] && t.at == s.at
    ensures forall q :: q in s.kids && q != o ==> t.kids[q] == s.kids[q]
    ensures t.kids[o] == InsertAt(s.kids[o], pos, n)
    ensures t.next == Linking(s.kids[o], pos, n, s.next)
  {
    var ks := s.kids[o];
    s.(kids := s.kids[o := InsertAt(ks, pos, n)][n := []], up := s.up[n := o], next := Linking(ks, pos, n, s.next))
  }

  /** The place where a node with value `v` belongs among `ks`. */
  ghost predicate Fits<A>(ks: seq<Node<A>>, pos: nat, v: byte) {
    && pos <= |ks|
    && (forall i :: 0 <= i < pos && IsLower(v) ==> ks[i].value < v)
    && (forall i :: pos <= i < |ks| && IsLower(ks[i].value) ==> v < ks[i].value)
  }

  lemma FitsBefore<A>(ks: seq<Node<A>>, pos: nat, v: byte)
    requires Ordered(ks) && pos <= |ks|
    requires forall i :: 0 <= i < pos ==> IsLower(v) ==> ks[i].value < v
    requires pos < |ks| ==> v < ks[pos].value
    ensures Fits(ks, pos, v)
  {
  }

  lemma InsertOrdered<A>(ks: seq<Node<A>>, pos: nat, n: Node<A>)
    requires Ordered(ks) && Fits(ks, pos, n.value) && n !in ks
    ensures Ordered(InsertAt(ks, pos, n))
  {
    hide InsertAt;
    var now := InsertAt(ks, pos, n);
    forall i, j | 0 <= i < j < |now|
      ensures now[i] != now[j] && (IsLower(now[j].value) ==> now[i].value < now[j].value)
    {
      var a := if i < pos then i else i - 1;
      var b := if j < pos then j else j - 1;
      assert i == pos || now[i] == ks[a];
      assert j == pos || now[j] == ks[b];
    }
  }

  lemma ListsStaySound<A>(s: Shape<A>, o: Node?<A>, pos: nat, n: Node<A>)
    requires s.ListsAreSound() && o in s.kids && n !in s.kids
    requires pos <= |s.kids[o]| && Fits(s.kids[o], pos, n.value)
    ensures WithKid(s, o, pos, n).ListsAreSound()
  {
    hide InsertAt, Ordered, Fits;
    var t := WithKid(s, o, pos, n);
    assert n !in s.kids[o];
    InsertOrdered(s.kids[o], pos, n);
    NothingOrdered<A>();
    forall q, i | q in t.kids && 0 <= i < |t.kids[q]|
      ensures t.Listed(t.kids[q][i], q, At(t.kids[q], i + 1))
    {
      if q == o {
        ListedWithNew(s, o, pos, n, i);
      } else {
        ListedElsewhere(s, o, pos, n, q, i);
      }
    }
  }

  lemma ListedElsewhere<A>(s: Shape<A>, o: Node?<A>, pos: nat, n: Node<A>, q: Node?<A>, i: nat)
    requires s.ListsAreSound() && o in s.kids && n !in s.kids && pos <= |s.kids[o]|
    requires q in WithKid(s, o, pos, n).kids && q != o && i < |WithKid(s, o, pos, n).kids[q]|
    ensures var t := WithKid(s, o, pos, n); t.Listed(t.kids[q][i], q, At(t.kids[q], i + 1))
  {
    hide InsertAt, Ordered;
    var ks := s.kids[o];
    if q != n {
      assert s.Listed(s.kids[q][i], q, At(s.kids[q], i + 1));
      assert 0 < pos ==> s.Listed(ks[pos - 1], o, At(ks, pos));
    }
  }

  lemma ListedWithNew<A>(s: Shape<A>, o: Node?<A>, pos: nat, n: Node<A>, i: nat)
    requires s.ListsAreSound() && o in s.kids && n !in s.kids && pos <= |s.kids[o]|
    requires i < |WithKid(s, o, pos, n).kids[o]|
    ensures var t := WithKid(s, o, pos, n); t.Listed(t.kids[o][i], o, At(t.kids[o], i + 1))
  {
    hide InsertAt, Ordered, Linking;
    var ks := s.kids[o];
    assert forall j :: 0 <= j < |ks| ==> s.Listed(ks[j], o, At(ks, j + 1));
    var j := if i < pos then i else i - 1;
    assert i != pos ==> InsertAt(ks, pos, n)[i] == ks[j];
    NextAfterInsert(ks, pos, n, s.next, i);
  }

  /** The successors once `n` has been put in at `pos`. */
  ghost function Linking<A>(ks: seq<Node<A>>, pos: nat, n: Node<A>,
    next: map<Node<A>, Node?<A>>): map<Node<A>, Node?<A>>
    requires pos <= |ks|
  {
    (if 0 < pos then next[ks[pos - 1] := n] else next)[n := At(ks, pos)]
  }

  lemma NextAfterInsert<A>(ks: seq<Node<A>>, pos: nat, n: Node<A>, next: map<Node<A>, Node?<A>>, i: nat)
    requires Ordered(ks) && pos <= |ks| && i <= |ks|
    requires forall j :: 0 <= j < |ks| ==> ks[j] != n && ks[j] in next && next[ks[j]] == At(ks, j + 1)
    ensures var now := InsertAt(ks, pos, n);
      now[i] in Linking(ks, pos, n, next) && Linking(ks, pos, n, next)[now[i]] == At(now, i + 1)
  {
    hide InsertAt;
    if i < pos {
      assert InsertAt(ks, pos, n)[i] == ks[i];
    } else if pos < i {
      assert InsertAt(ks, pos, n)[i] == ks[i - 1];
    }
  }

  lemma NothingOrdered<A>()
    ensures Ordered<A>([])
  {
  }

  /** Children after `n` joined those of `o`: the old ones and `n`. */
  lemma KidsGrow<A>(s: Shape<A>, o: Node?<A>, pos: nat, n: Node<A>, q: Node?<A>, m: Node<A>)
    requires o in s.kids && pos <= |s.kids[o]| && n !in s.kids && q in s.kids
    ensures m in WithKid(s, o, pos, n).kids[q] <==> m in s.kids[q] || (q == o && m == n)
  {
    hide InsertAt;
    var ks := s.kids[o];
    var now := InsertAt(ks, pos, n);
    if m in ks {
      var i :| 0 <= i < |ks| && ks[i] == m;
      assert now[if i < pos then i else i + 1] == m;
    }
    if m in now {
      var i :| 0 <= i < |now| && now[i] == m;
      assert i == pos || m == ks[if i < pos then i else i - 1];
    }
  }

  lemma MetBefore<A>(s: Shape<A>, p: Text, m: Node<A>)
    requires s.Sound() && p in s.at && m in s.kids[s.at[p]]
    ensures s.Met(p, m)
  {
    var ks := s.kids[s.at[p]];
    var j :| 0 <= j < |ks| && ks[j] == m;
    assert s.Met(p, s.kids[s.at[p]][j]);
  }

  /** A new child that no search can meet, or of a node that no search reaches. */
  lemma HiddenKidKeepsPaths<A>(s: Shape<A>, o: Node?<A>, pos: nat, n: Node<A>)
    requires s.Sound() && o in s.kids && n !in s.kids && pos <= |s.kids[o]|
    requires !IsLower(n.value) || o !in s.at.Values
    ensures WithKid(s, o, pos, n).PathsAreSound()
  {
    hide WithKid, InsertAt, Ordered;
    var t := WithKid(s, o, pos, n);
    forall p | p in t.at && p != []
      ensures t.Spelled(p)
    {
      assert s.Spelled(p);
      KidsGrow(s, o, pos, n, s.at[p[..|p| - 1]], s.at[p]);
    }
    forall p, i | p in t.at && 0 <= i < |t.kids[t.at[p]]|
      ensures t.Met(p, t.kids[t.at[p]][i])
    {
      var m := t.kids[t.at[p]][i];
      KidsGrow(s, o, pos, n, s.at[p], m);
      assert s.at[p] in s.at.Values && m in t.kids[s.at[p]];
      if m in s.kids[s.at[p]] {
        MetBefore(s, p, m);
      }
    }
  }

  /** A new child of the node at `p` gives the tree one more path. */
  ghost function WithPath<A>(s: Shape<A>, p: Text, pos: nat, n: Node<A>): Shape<A>
    requires p in s.at && s.at[p] in s.kids && pos <= |s.kids[s.at[p]]| && n !in s.kids
  {
    WithKid(s, s.at[p], pos, n).(at := s.at[p + [n.value] := n])
  }

  lemma SeenKidAddsPath<A>(s: Shape<A>, p: Text, pos: nat, n: Node<A>)
    requires s.Sound() && p in s.at && n !in s.kids && IsLower(n.value)
    requires pos <= |s.kids[s.at[p]]| && Fits(s.kids[s.at[p]], pos, n.value)
    ensures p + [n.value] !in s.at
    ensures WithPath(s, p, pos, n).PathsAreSound()
  {
    hide WithKid, InsertAt, Ordered, Shape.Spelled, Shape.Met;
    var t := WithPath(s, p, pos, n);
    NotYetAPath(s, p, pos, n.value);
    forall u | u in t.at && u != []
      ensures t.Spelled(u)
    {
      NewSpelled(s, p, pos, n, u);
    }
    forall u, i | u in t.at && 0 <= i < |t.kids[t.at[u]]|
      ensures t.Met(u, t.kids[t.at[u]][i])
    {
      NewMet(s, p, pos, n, u, t.kids[t.at[u]][i]);
    }
  }

  lemma NewSpelled<A>(s: Shape<A>, p: Text, pos: nat, n: Node<A>, u: Text)
    requires s.Sound() && p in s.at && n !in s.kids && IsLower(n.value)
    requires pos <= |s.kids[s.at[p]]| && p + [n.value] !in s.at
    requires u in WithPath(s, p, pos, n).at && u != []
    ensures WithPath(s, p, pos, n).Spelled(u)
  {
    hide WithKid, InsertAt, Shape.ListsAreSound, Shape.Met;
    var o, q := s.at[p], p + [n.value];
    assert q[..|q| - 1] == p;
    if u == q {
      KidsGrow(s, o, pos, n, o, n);
    } else {
      assert s.Spelled(u);
      KidsGrow(s, o, pos, n, s.at[u[..|u| - 1]], s.at[u]);
    }
  }

  lemma NewMet<A>(s: Shape<A>, p: Text, pos: nat, n: Node<A>, u: Text, m: Node<A>)
    requires s.Sound() && p in s.at && n !in s.kids && IsLower(n.value)
    requires pos <= |s.kids[s.at[p]]| && p + [n.value] !in s.at
    requires var t := WithPath(s, p, pos, n); u in t.at && t.at[u] in t.kids && m in t.kids[t.at[u]]
    ensures WithPath(s, p, pos, n).Met(u, m)
  {
    hide WithKid, InsertAt, Shape.ListsAreSound, Shape.Spelled;
    if u != p + [n.value] {
      KidsGrow(s, s.at[p], pos, n, s.at[u], m);
      if m in s.kids[s.at[u]] {
        MetBefore(s, u, m);
      }
    }
  }

  /** A value that fits strictly between the children of the node at `p` is a new one. */
  lemma NotYetAPath<A>(s: Shape<A>, p: Text, pos: nat, v: byte)
    requires s.Sound() && p in s.at && IsLower(v)
    requires pos <= |s.kids[s.at[p]]| && Fits(s.kids[s.at[p]], pos, v)
    ensures p + [v] !in s.at
  {
    var q := p + [v];
    assert q[..|q| - 1] == p;
    assert q in s.at ==> s.Spelled(q);
  }

  /** `nodes` are the nodes that the view speaks of. */
  ghost predicate OwnedBy<A>(kids: map<Node?<A>, seq<Node<A>>>, next: map<Node<A>, Node?<A>>, nodes: set<Node<A>>) {
    && (forall n :: n in kids ==> n == null || n in nodes)
    && (forall n :: n in nodes ==> n in kids && n in next)
    && (forall o, i :: o in kids && 0 <= i < |kids[o]| ==> kids[o][i] in nodes)
  }

  lemma OwnedGrows<A>(s: Shape<A>, nodes: set<Node<A>>, o: Node?<A>, pos: nat, n: Node<A>)
    requires OwnedBy(s.kids, s.next, nodes) && o in s.kids && n !in s.kids && pos <= |s.kids[o]|
    ensures var t := WithKid(s, o, pos, n); OwnedBy(t.kids, t.next, nodes + {n})
  {
    hide InsertAt;
    var t := WithKid(s, o, pos, n);
    forall q, i | q in t.kids && 0 <= i < |t.kids[q]|
      ensures t.kids[q][i] in nodes + {n}
    {
      if q == o && i != pos {
        assert t.kids[q][i] == s.kids[o][if i < pos then i else i - 1];
      }
    }
  }

  /** The view with `n` put in; `p` is the path to its parent, when there is one. */
  ghost function Grown<A>(s: Shape<A>, o: Node?<A>, pos: nat, n: Node<A>, p: Option<Text>): Shape<A>
    requires o in s.kids && pos <= |s.kids[o]| && n !in s.kids
    requires p.Some? ==> p.value in s.at && s.at[p.value] == o
  {
    if p.Some? && IsLower(n.value) then WithPath(s, p.value, pos, n) else WithKid(s, o, pos, n)
  }

  lemma GrownIsSound<A>(s: Shape<A>, o: Node?<A>, pos: nat, n: Node<A>, p: Option<Text>)
    requires s.Sound() && o in s.kids && n !in s.kids && pos <= |s.kids[o]| && Fits(s.kids[o], pos, n.value)
    requires p.Some? ==> p.value in s.at && s.at[p.value] == o
    requires p.None? ==> o !in s.at.Values
    ensures var t := Grown(s, o, pos, n, p);
      && t.Sound() && t.kids == WithKid(s, o, pos, n).kids && t.next == WithKid(s, o, pos, n).next
      && if p.Some? && IsLower(n.value) then
           p.value + [n.value] !in s.at && t.at == s.at[p.value + [n.value] := n]
         else t.at == s.at
  {
    hide InsertAt, Ordered, Shape.PathsAreSound;
    ListsStaySound(s, o, pos, n);
    if p.Some? && IsLower(n.value) {
      SeenKidAddsPath(s, p.value, pos, n);
    } else {
      HiddenKidKeepsPaths(s, o, pos, n);
    }
  }

  /** Which links of the heap a new node changes. */
  lemma LinksAfter<A>(s: Shape<A>, nodes: set<Node<A>>, o: Node?<A>, pos: nat, r: Node<A>)
    requires OwnedBy(s.kids, s.next, nodes) && o in s.kids && r !in s.kids && null in s.kids && pos <= |s.kids[o]|
    ensures var (t, ks) := (WithKid(s, o, pos, r), s.kids[o]);
      && r in t.next && t.next[r] == At(ks, pos) && r in t.kids && At(t.kids[r], 0) == null
      && (forall q :: q in s.kids ==>
         q in t.kids && At(t.kids[q], 0) == if q == o && pos == 0 then r else At(s.kids[q], 0))
      && (o == null || o in nodes) && (0 < pos ==> ks[pos - 1] in nodes)
      && (forall n :: n in nodes ==> n in t.next && n in s.next && n in s.kids)
      && (forall n :: n in nodes ==> t.next[n] == if 0 < pos && n == ks[pos - 1] then r else s.next[n])
  {
    hide InsertAt, WithKid;
  }

  lemma PutAfter<A>(s: Shape<A>, nodes: set<Node<A>>, o: Node?<A>, pos: nat, r: Node<A>, p: Option<Text>)
    requires s.Sound() && OwnedBy(s.kids, s.next, nodes) && null in s.kids
    requires o in s.kids && r !in s.kids && pos <= |s.kids[o]| && Fits(s.kids[o], pos, r.value)
    requires p.Some? ==> p.value in s.at && s.at[p.value] == o
    requires p.None? ==> o !in s.at.Values
    ensures var (t, ks) := (Grown(s, o, pos, r, p), s.kids[o]);
      && t.Sound() && OwnedBy(t.kids, t.next, nodes + {r})
      && r in t.next && t.next[r] == At(ks, pos) && r in t.kids && At(t.kids[r], 0) == null
      && null in t.kids && At(t.kids[null], 0) == (if o == null && pos == 0 then r else At(s.kids[null], 0))
      && (o == null || o in nodes) && (0 < pos ==> ks[pos - 1] in nodes)
      && (forall n :: n in nodes ==> n in t.next && n in s.next && n in s.kids && n in t.kids)
      && (forall n :: n in nodes ==> t.next[n] == if 0 < pos && n == ks[pos - 1] then r else s.next[n])
      && (forall n :: n in nodes ==> At(t.kids[n], 0) == if n == o && pos == 0 then r else At(s.kids[n], 0))
  {
    hide InsertAt, Fits, Shape.Sound, WithKid, OwnedBy, Grown, At;
    GrownIsSound(s, o, pos, r, p);
    OwnedGrows(s, nodes, o, pos, r);
    LinksAfter(s, nodes, o, pos, r);
  }

  /** The view after the top level lost its first `pos` nodes, and all below them. */
  ghost function Chopped<A>(s: Shape<A>, pos: nat): Shape<A>
    requires null in s.kids && pos <= |s.kids[null]|
  {
    var top := s.kids[null][pos..];
    s.(kids := s.kids[null := top],
      at := map p | p in s.at && (p == [] || (p[..1] in s.at && InList(s.at[p[..1]], top))) :: s.at[p])
  }

  ghost predicate InList<A>(n: Node?<A>, ks: seq<Node<A>>) {
    exists i :: 0 <= i < |ks| && ks[i] == n
  }

  lemma ChoppedLists<A>(s: Shape<A>, pos: nat)
    requires s.ListsAreSound() && pos <= |s.kids[null]|
    ensures Chopped(s, pos).ListsAreSound()
  {
    hide Ordered;
    var t := Chopped(s, pos);
    forall o | o in t.kids
      ensures Ordered(t.kids[o])
    {
      RestOrdered(s.kids[o], if o == null then pos else 0);
      assert o != null ==> s.kids[o][0..] == s.kids[o];
    }
    forall o, i | o in t.kids && 0 <= i < |t.kids[o]|
      ensures t.Listed(t.kids[o][i], o, At(t.kids[o], i + 1))
    {
      if o == null {
        assert s.Listed(s.kids[o][i + pos], o, At(s.kids[o], i + pos + 1));
      } else {
        assert s.Listed(s.kids[o][i], o, At(s.kids[o], i + 1));
      }
    }
  }

  lemma RestOrdered<A>(ks: seq<Node<A>>, pos: nat)
    requires Ordered(ks) && pos <= |ks|
    ensures Ordered(ks[pos..])
  {
  }

  lemma ChoppedPaths<A>(s: Shape<A>, pos: nat)
    requires s.Sound() && pos <= |s.kids[null]|
    ensures Chopped(s, pos).PathsAreSound()
  {
    hide Shape.Spelled, Shape.Met, Shape.ListsAreSound;
    var t := Chopped(s, pos);
    forall p | p in t.at && p != []
      ensures t.Spelled(p)
    {
      ChoppedSpelled(s, pos, p);
    }
    forall p, i | p in t.at && 0 <= i < |t.kids[t.at[p]]|
      ensures t.Met(p, t.kids[t.at[p]][i])
    {
      ChoppedMet(s, pos, p, i);
    }
  }

  lemma ChoppedSpelled<A>(s: Shape<A>, pos: nat, p: Text)
    requires s.Sound() && pos <= |s.kids[null]| && p in Chopped(s, pos).at && p != []
    ensures Chopped(s, pos).Spelled(p)
  {
    hide Shape.ListsAreSound, Shape.Met;
    assert s.Spelled(p);
    var up := p[..|p| - 1];
    if |p| == 1 {
      assert p[..1] == p && up == [];
    } else {
      assert up[..1] == p[..1];
      assert s.Spelled(up);
    }
  }

  lemma ChoppedMet<A>(s: Shape<A>, pos: nat, p: Text, i: nat)
    requires s.Sound() && pos <= |s.kids[null]| && p in Chopped(s, pos).at
    requires s.at[p] in s.kids && i < |Chopped(s, pos).kids[s.at[p]]|
    ensures Chopped(s, pos).Met(p, Chopped(s, pos).kids[s.at[p]][i])
  {
    hide Shape.ListsAreSound, Shape.Spelled, Shape.Met;
    if p == [] {
      ChoppedMetTop(s, pos, i);
    } else {
      ChoppedMetBelow(s, pos, p, i);
    }
  }

  lemma ChoppedMetTop<A>(s: Shape<A>, pos: nat, i: nat)
    requires s.Sound() && pos <= |s.kids[null]| && i < |Chopped(s, pos).kids[null]|
    ensures Chopped(s, pos).Met([], Chopped(s, pos).kids[null][i])
  {
    hide Shape.ListsAreSound, Shape.Spelled;
    var n := s.kids[null][i + pos];
    assert s.Met([], n);
    assert [] + [n.value] == [n.value] && [n.value][..1] == [n.value];
  }

  lemma ChoppedMetBelow<A>(s: Shape<A>, pos: nat, p: Text, i: nat)
    requires s.Sound() && pos <= |s.kids[null]| && p in Chopped(s, pos).at && p != []
    requires s.at[p] in s.kids && i < |Chopped(s, pos).kids[s.at[p]]|
    ensures Chopped(s, pos).Met(p, Chopped(s, pos).kids[s.at[p]][i])
  {
    hide Shape.Sound;
    KidIsMet(s, p, i);
    var n := s.kids[s.at[p]][i];
    assert (p + [n.value])[..1] == p[..1];
  }

  lemma KidIsMet<A>(s: Shape<A>, p: Text, i: nat)
    requires s.Sound() && p in s.at && p != [] && s.at[p] in s.kids
    ensures s.at[p] != null && (i < |s.kids[s.at[p]]| ==> s.Met(p, s.kids[s.at[p]][i]))
  {
    hide Shape.ListsAreSound, Shape.Met;
    assert s.Spelled(p);
  }

  lemma ChoppedIsSound<A>(s: Shape<A>, nodes: set<Node<A>>, pos: nat)
    requires s.Sound() && OwnedBy(s.kids, s.next, nodes) && pos <= |s.kids[null]|
    ensures var t := Chopped(s, pos);
      && t.Sound() && OwnedBy(t.kids, t.next, nodes) && t.next == s.next
      && null in t.kids && At(t.kids[null], 0) == At(s.kids[null], pos)
      && (forall n :: n in nodes ==> n in s.kids && n in t.kids && t.kids[n] == s.kids[n])
  {
    hide Shape.PathsAreSound;
    ChoppedLists(s, pos);
    ChoppedPaths(s, pos);
  }

  class Trie<A(0)> {
    var root: Node?<A>
    ghost var shape: Shape<A>
    ghost var nodes: set<Node<A>>

    /** The links on the heap are those of the view. */
    ghost predicate Linked()
      reads this, nodes`nextChild, nodes`nextSibling
    {
      LinkedTo(shape, nodes)
    }

    ghost predicate LinkedTo(s: Shape<A>, ns: set<Node<A>>)
      reads `root, ns`nextChild, ns`nextSibling
    {
      && OwnedBy(s.kids, s.next, ns)
      && null in s.kids && root == At(s.kids[null], 0)
      && forall n :: n in ns ==> n.nextSibling == s.next[n] && n.nextChild == At(s.kids[n], 0)
    }

    ghost predicate Valid()
      reads this, nodes`nextChild, nodes`nextSibling
    {
      shape.Sound() && Linked()
    }

    constructor ()
      ensures Valid() && nodes == {} && shape.at.Keys == {[]} && root == null
    {
      root := null;
      shape := Shape(map[null := []], map[], map[], map[[] := null]);
      nodes := {};
    }

    lemma OnPaths()
      requires Valid()
      ensures [] in shape.at && shape.at[[]] == null && null in shape.kids
      ensures forall p :: p in shape.at ==> shape.at[p] in shape.kids
      ensures forall p :: p in shape.at && p != [] ==> shape.at[p] in nodes
      ensures forall p, q :: p in shape.at && q in shape.at && shape.at[p] == shape.at[q] ==> p == q
      ensures forall p :: p in shape.at && p != [] ==> p[..|p| - 1] in shape.at && IsLower(p[|p| - 1])
      ensures forall p :: p in shape.at && p != [] ==> shape.at[p] != null && shape.at[p].value == p[|p| - 1]
    {
      assert forall p :: p in shape.at && p != [] ==> shape.Spelled(p);
    }

    lemma InShape(n: Node<A>)
      requires Valid() && n in nodes
      ensures n in shape.kids
    {
    }

    lemma Siblings(o: Node?<A>)
      requires Valid() && o in shape.kids
      ensures Ordered(shape.kids[o])
      ensures At(shape.kids[o], 0) == if o == null then root else o.nextChild
    {
    }

    lemma NextSibling(o: Node?<A>, i: nat)
      requires Valid() && o in shape.kids && i < |shape.kids[o]|
      ensures shape.kids[o][i].nextSibling == At(shape.kids[o], i + 1)
    {
      assert shape.Listed(shape.kids[o][i], o, At(shape.kids[o], i + 1));
    }

    /** The path to a child that a search can meet. */
    lemma ChildPath(p: Text, i: nat)
      requires Valid() && p in shape.at && shape.at[p] in shape.kids && i < |shape.kids[shape.at[p]]|
      requires IsLower(shape.kids[shape.at[p]][i].value)
      ensures var n := shape.kids[shape.at[p]][i];
        p + [n.value] in shape.at && shape.at[p + [n.value]] == n && n in nodes
    {
      assert shape.Met(p, shape.kids[shape.at[p]][i]);
    }

    /** Below a node that no search reaches, no node can be reached. */
    lemma HiddenChild(o: Node?<A>, i: nat)
      requires Valid() && o in shape.kids && o !in shape.at.Values && i < |shape.kids[o]|
      ensures shape.kids[o][i] in nodes && shape.kids[o][i] !in shape.at.Values
    {
      var r := shape.kids[o][i];
      assert shape.Listed(r, o, At(shape.kids[o], i + 1));
      forall q | q in shape.at
        ensures shape.at[q] != r
      {
        if q != [] {
          assert shape.Spelled(q);
          var up := shape.at[q[..|q| - 1]];
          var j :| 0 <= j < |shape.kids[up]| && shape.kids[up][j] == shape.at[q];
          assert shape.Listed(shape.kids[up][j], up, At(shape.kids[up], j + 1));
        }
      }
    }

    /** The search may stop where a larger value stands: the node is not further on. */
    lemma NoChildPath(p: Text, pos: nat, v: byte)
      requires Valid() && p in shape.at && shape.at[p] in shape.kids && IsLower(v)
      requires pos <= |shape.kids[shape.at[p]]| && Fits(shape.kids[shape.at[p]], pos, v)
      ensures p + [v] !in shape.at
    {
      NotYetAPath(shape, p, pos, v);
    }

    /** `r` goes among the children of `o`, between `prev` and `cur`; to be the first it
    takes `owner`. `p` is the path to `o`, when there is one. */
    method Put(owner: Node?<A>, prev: Node?<A>, cur: Node?<A>, r: Node<A>,
      ghost o: Node?<A>, ghost pos: nat, ghost p: Option<Text>)
      requires prev == null ==> owner == o
      requires Valid() && o in shape.kids && r !in nodes && r !in shape.kids && r.nextChild == null
      requires pos <= |shape.kids[o]| && Fits(shape.kids[o], pos, r.value)
      requires prev == (if pos == 0 then null else shape.kids[o][pos - 1]) && cur == At(shape.kids[o], pos)
      requires p.Some? ==> p.value in shape.at && shape.at[p.value] == o
      requires p.None? ==> o !in shape.at.Values
      modifies this, nodes`nextChild, nodes`nextSibling, r`nextSibling
      ensures Valid() && nodes == old(nodes) + {r}
      ensures shape == Grown(old(shape), o, pos, r, p)
      ensures root == if o == null && pos == 0 then r else old(root)
    {
      hide InsertAt, Fits, Shape.Sound, OwnedBy, Linking, Grown, At;
      PutPlace(shape, nodes, o, pos);
      Relink(if prev == null then owner else null, prev, cur, r);
      LinkedAfter(shape, nodes, o, pos, r, p);
      shape, nodes := Grown(shape, o, pos, r, p), nodes + {r};
    }

    lemma PutPlace(s: Shape<A>, nodes: set<Node<A>>, o: Node?<A>, pos: nat)
      requires OwnedBy(s.kids, s.next, nodes) && null in s.kids && o in s.kids && pos <= |s.kids[o]|
      ensures (o == null || o in nodes) && (0 < pos ==> s.kids[o][pos - 1] in nodes)
      ensures forall n :: n in nodes ==> n in s.next && n in s.kids
    {
    }

    /** The heap has the links of the grown view. */
    lemma LinkedAfter(s: Shape<A>, nodes: set<Node<A>>, o: Node?<A>, pos: nat, r: Node<A>, p: Option<Text>)
      requires s.Sound() && OwnedBy(s.kids, s.next, nodes) && null in s.kids
      requires o in s.kids && r !in s.kids && pos <= |s.kids[o]| && Fits(s.kids[o], pos, r.value)
      requires p.Some? ==> p.value in s.at && s.at[p.value] == o
      requires p.None? ==> o !in s.at.Values
      requires root == (if o == null && pos == 0 then r else At(s.kids[null], 0))
      requires r.nextSibling == At(s.kids[o], pos) && r.nextChild == null
      requires forall n :: n in nodes ==> n in s.next && n in s.kids
      requires forall n :: n in nodes ==>
        n.nextSibling == if 0 < pos && n == s.kids[o][pos - 1] then r else s.next[n]
      requires forall n :: n in nodes ==> n.nextChild == if n == o && pos == 0 then r else At(s.kids[n], 0)
      ensures Grown(s, o, pos, r, p).Sound() && LinkedTo(Grown(s, o, pos, r, p), nodes + {r})
    {
      hide InsertAt, Fits, Shape.Sound, OwnedBy, Grown, At;
      PutAfter(s, nodes, o, pos, r, p);
    }

    method Relink(o: Node?<A>, prev: Node?<A>, cur: Node?<A>, r: Node<A>)
      requires (prev == null || prev in nodes) && (o == null || o in nodes) && r !in nodes
      modifies `root, nodes`nextChild, nodes`nextSibling, r`nextSibling
      ensures r.nextSibling == cur
      ensures root == if prev == null && o == null then r else old(root)
      ensures forall n :: n in nodes ==> n.nextSibling == if n == prev then r else old(n.nextSibling)
      ensures forall n :: n in nodes ==> n.nextChild == if prev == null && n == o then r else old(n.nextChild)
    {
      r.nextSibling := cur;
      if prev != null {
        prev.nextSibling := r;
      } else if o == null {
        root := r;
      } else {
        o.nextChild := r;
      }
    }

    /** The root moves on to `aux`; what stood before it is lost. */
    method SetRoot(aux: Node<A>, ghost pos: nat)
      requires Valid() && null in shape.kids && pos < |shape.kids[null]| && shape.kids[null][pos] == aux
      modifies `root, `shape
      ensures Valid() && shape == Chopped(old(shape), pos) && root == aux
    {
      hide Shape.Sound, Chopped, OwnedBy;
      ChoppedIsSound(shape, nodes, pos);
      root := aux;
      shape := Chopped(shape, pos);
    }
  }
}
