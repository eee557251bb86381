/** Exactly which rule sets rena rewrites as the whole-text specification says.

rena replaces a key only once every partial match but a new one has died, and then cuts
it off the end of what it holds. That is the right place for every text precisely
when no partial match can outlive a completed key. */
module RenaExactness {
  import opened Bytes
  import opened Wrappers
  import opened Rules
  import opened PartialMatches
  import opened RenaMatching

  /** A rule set as rena sees it: lower-case nodes, and matches may begin anywhere. */
  ghost predicate RenaBook(book: Book) {
    && book.WellFormed() && book.floor < -128
    && (forall p :: p in book.first.paths || p in book.second.paths ==> IsLowerText(p))
  }

  ghost predicate IsSuffix(a: Text, b: Text) {
    |a| <= |b| && b[|b| - |a|..] == a
  }

  ghost predicate HasChild(book: Book, n: Node) {
    n.path in DictOf(book, n).paths && exists c :: Child(book, n, c).Some?
  }

  /** A key long enough to fire and a node with children: one of them ends with the other. */
  ghost predicate Clash(book: Book, key: Text, n: Node) {
    && book.Fires(key) && IsLowerText(key)
    && n.path != [] && HasChild(book, n)
    && (IsSuffix(key, n.path) || IsSuffix(n.path, key))
  }

  /** What a caller can check of the rules: no key and no inner node clash. */
  ghost predicate Safe(book: Book) {
    forall key, n :: !Clash(book, key, n)
  }

  function Permitted(t: Text): (js: seq<Judged>)
    ensures |js| == |t|
    ensures forall i :: 0 <= i < |t| ==> js[i] == Judged(t[i], true)
  {
    seq(|t|, i requires 0 <= i < |t| => Judged(t[i], true))
  }

  /** rena's rewriting of `t` when no context restricts it, up to the final flush. */
  function RenaRewrite(book: Book, t: Text): Rewriting {
    var s := Run(book, Permitted(t));
    Rewriting(s.done, s.Tail())
  }

  /** The specification, one byte behind: a key that the very last byte completes stays. */
  function Lagged(book: Book, t: Text): Rewriting {
    if t == [] then Rewriting([], [])
    else
      var r := Rewrite(book, t[..|t| - 1]);
      Rewriting(r.pieces, r.tail + [t[|t| - 1]])
  }

  lemma PermittedPush(t: Text, c: byte)
    ensures Permitted(t + [c]) == Permitted(t) + [Judged(c, true)]
    ensures Permitted(t + [c])[..|t|] == Permitted(t)
  {
  }

  lemma RunPush(book: Book, t: Text, c: byte)
    ensures Run(book, Permitted(t + [c])) == Step(book, Run(book, Permitted(t)), c, true)
  {
    PermittedPush(t, c);
  }

  /** The key that ends with `q`, as the matcher records it. */
  function HitOf(book: Book, q: Text): Option<Hit> {
    if KeyEndsAt(book, q, |q|) then
      var s := KeyStart(book, q);
      Some(Hit(book.Replacement(q[s..]), |q| - s))
    else None
  }

  lemma {:induction false} BestAppend(book: Book, hit: Option<Hit>, a: seq<Node>, b: seq<Node>)
    ensures Best(book, hit, a + b) == Best(book, Best(book, hit, a), b)
    decreases a
  {
    if a == [] {
      assert a + b == b;
    } else {
      var rule := RuleAt(book, a[0]);
      var better := rule.Some? && (hit.None? || hit.value.consume < |a[0].path|);
      assert (a + b)[1..] == a[1..] + b;
      BestAppend(book, if better then Some(Hit(rule.value, |a[0].path|)) else hit, a[1..], b);
    }
  }

  /** A key spelled by the whole of `q` beats every shorter one. */
  lemma BestHere(book: Book, q: Text, hit: Option<Hit>)
    requires book.WellFormed() && 2 <= |q|
    requires hit.Some? ==> hit.value.consume < |q|
    ensures Best(book, hit, Here(book, q)) == if book.Fires(q) then Some(Hit(book.Replacement(q), |q|)) else hit
  {
    if q[0] as int > book.floor {
      var f := if book.first.HasNode(q) then [Node(false, LowerText(q))] else [];
      var s := if book.second.HasNode(q) then [Node(true, LowerText(q))] else [];
      BestAppend(book, hit, f, s);
    }
  }

  lemma HitOfShift(book: Book, q: Text)
    requires 2 <= |q|
    ensures HitOf(book, q) == if book.Fires(q) then Some(Hit(book.Replacement(q), |q|)) else HitOf(book, q[1..])
  {
    hide KeyEndsAt, KeyStart, Book.Fires;
    var u := q[1..];
    KeyEndsHere(book, q);
    KeyEndsHere(book, u);
    assert q[0..] == q;
    assert forall i :: 0 <= i < |u| ==> u[i..] == q[i + 1..];
    if KeyEndsAt(book, q, |q|) && !book.Fires(q) {
      var s := KeyStart(book, q);
      assert u[s - 1..] == q[s..];
    }
    if KeyEndsAt(book, u, |u|) {
      var s := KeyStart(book, u);
      assert q[s + 1..] == u[s..];
    }
  }

  /** Visiting the advanced suffixes shortest first also ends with the longest key. */
  lemma {:induction false} BestIsLongest(book: Book, p: Text, c: byte)
    requires book.WellFormed()
    ensures Best(book, None, Advance(book, SuffixesUp(book, p), c)) == HitOf(book, p + [c])
  {
    hide KeyEndsAt, KeyStart, Here;
    if p == [] {
      ShortHit(book, [c]);
      assert p + [c] == [c];
    } else {
      var q, rest := p + [c], SuffixesUp(book, p[1..]);
      assert q[1..] == p[1..] + [c];
      BestIsLongest(book, p[1..], c);
      AdvanceAppend(book, rest, Here(book, p), c);
      AdvanceHere(book, p, c);
      BestAppend(book, None, Advance(book, rest, c), Here(book, q));
      BestHere(book, q, HitOf(book, q[1..]));
      HitOfShift(book, q);
    }
  }

  lemma ShortHit(book: Book, q: Text)
    requires |q| < 2
    ensures HitOf(book, q) == None
  {
  }

  /** A pending key is as long as it is pending, and then at most one byte longer. */
  ghost predicate Follows(book: Book, t: Text, c: byte) {
    var r := Rewrite(book, t);
    var s := Run(book, Permitted(t + [c]));
    && s.done == r.pieces
    && s.Tail() == r.tail + [c]
    && SuffixesUp(book, s.accepted) == SuffixesUp(book, s.Tail())
    && s.hit == HitOf(book, s.Tail())
    && Inv(book, s)
  }

  lemma FirstByte(book: Book, c: byte)
    requires RenaBook(book)
    ensures Follows(book, [], c)
  {
    var js := Permitted([] + [c]);
    RunPush(book, [], c);
    RunConserves(book, js);
    assert Active(book, START) == [];
    assert [] + [c] == [c];
    assert Rewrite(book, []) == Rewriting([], []);
  }

  lemma {:induction false} AdvanceWitness(book: Book, ns: seq<Node>, c: byte)
    requires Advance(book, ns, c) != []
    ensures exists n :: n in ns && Child(book, n, c).Some?
  {
    if Child(book, ns[0], c).None? {
      AdvanceWitness(book, ns[1..], c);
    }
  }

  /** Two suffixes of a text: the shorter ends the longer. */
  lemma SuffixesNest(q: Text, i: nat, j: nat)
    requires i <= j <= |q|
    ensures IsSuffix(LowerText(q[j..]), LowerText(q[i..]))
  {
    assert q[i..][j - i..] == q[j..];
  }

  /** In a safe rule set nothing outlives a completed key. */
  lemma SafeDies(book: Book, q: Text, c: byte)
    requires RenaBook(book) && Safe(book) && KeyEndsAt(book, q, |q|)
    ensures Advance(book, SuffixesUp(book, q), c) == []
  {
    hide KeyEndsAt, KeyStart, SuffixesUp, Advance;
    if Advance(book, SuffixesUp(book, q), c) != [] {
      AdvanceWitness(book, SuffixesUp(book, q), c);
      var n :| n in SuffixesUp(book, q) && Child(book, n, c).Some?;
      SuffixesUpExact(book, q);
      assert Reached(book, q, n);
      LiveNodeClashes(book, q, n, c);
    }
  }

  lemma LiveNodeClashes(book: Book, q: Text, n: Node, c: byte)
    requires RenaBook(book) && KeyEndsAt(book, q, |q|)
    requires Reached(book, q, n) && Child(book, n, c).Some?
    ensures Clash(book, LowerText(q[KeyStart(book, q)..]), n)
  {
    hide KeyEndsAt, KeyStart, Child;
    var k :| 0 <= k < |q| && SpellsNode(book, q[k..], n);
    var s := KeyStart(book, q);
    LowerFires(book, q[s..]);
    if s <= k {
      SuffixesNest(q, s, k);
    } else {
      SuffixesNest(q, k, s);
    }
  }

  lemma LowerFires(book: Book, w: Text)
    requires RenaBook(book) && book.Fires(w)
    ensures book.Fires(LowerText(w)) && IsLowerText(LowerText(w))
  {
    assert LowerText(LowerText(w)) == LowerText(w);
  }

  lemma FollowStep(book: Book, t: Text, d: byte, c: byte)
    requires RenaBook(book) && Safe(book) && Follows(book, t, d)
    ensures Follows(book, t + [d], c)
  {
    hide Rewrite, KeyEndsAt, KeyStart, Best, Advance, SuffixesUp, Run, Here, Inv, Fire, State.Tail;
    var r := Rewrite(book, t);
    var s := Run(book, Permitted(t + [d]));
    StepTail(book, s, c, true);
    var q := s.Tail();
    RewriteExtends(book, t, d);
    RunPush(book, t + [d], c);
    RunConserves(book, Permitted(t + [d] + [c]));
    SuffixesUpStep(book, s.accepted, c);
    if KeyEndsAt(book, q, |q|) {
      FollowFires(book, s, r, c);
    } else {
      BestIsLongest(book, q, c);
      SuffixesUpStep(book, q, c);
      assert Advance(book, SuffixesUp(book, q), c) == [] ==>
        Best(book, None, Advance(book, SuffixesUp(book, q), c)) == None by {
        BestOfNone(book, None);
      }
    }
  }

  lemma FollowFires(book: Book, s: State, r: Rewriting, c: byte)
    requires RenaBook(book) && Safe(book) && Inv(book, s)
    requires KeyEndsAt(book, s.Tail(), |s.Tail()|) && s.hit == HitOf(book, s.Tail())
    requires SuffixesUp(book, s.accepted) == SuffixesUp(book, s.Tail())
    ensures var u := Step(book, s, c, true);
      var k := KeyStart(book, s.Tail());
      && u.done == s.done + [Piece(s.Tail()[..k], s.Tail()[k..], book.Replacement(s.Tail()[k..]))]
      && u.Tail() == [c] && u.hit == None == HitOf(book, [c])
      && SuffixesUp(book, u.accepted) == SuffixesUp(book, [c])
  {
    hide Rewrite, KeyEndsAt, Best, SuffixesUp, Here, State.Tail;
    StepTail(book, s, c, true);
    SafeDies(book, s.Tail(), c);
    SuffixesUpStep(book, s.accepted, c);
    SuffixesUpStep(book, [], c);
    assert [] + [c] == [c];
    ShortHit(book, [c]);
    BestOfNone(book, s.hit);
    assert SuffixesUp(book, []) == [] by {
      SuffixesUpNothing(book);
    }
  }

  lemma BestOfNone(book: Book, hit: Option<Hit>)
    ensures Best(book, hit, []) == hit
  {
  }

  lemma SuffixesUpNothing(book: Book)
    ensures SuffixesUp(book, []) == []
  {
  }

  /** On a safe rule set the machine follows the specification, byte by byte. */
  lemma {:induction false} SafeFollows(book: Book, t: Text, c: byte)
    requires RenaBook(book) && Safe(book)
    ensures Follows(book, t, c)
    decreases |t|
  {
    hide Follows, Safe, RenaBook;
    if t == [] {
      FirstByte(book, c);
    } else {
      var u, d := t[..|t| - 1], t[|t| - 1];
      assert u + [d] == t;
      SafeFollows(book, u, d);
      FollowStep(book, u, d, c);
    }
  }

  /** As long as no key ends, nothing is pending and nothing is replaced. */
  lemma {:induction false} NoKeyRun(book: Book, t: Text)
    requires book.WellFormed()
    requires forall i :: 0 <= i <= |t| ==> !KeyEndsAt(book, t, i)
    ensures var s := Run(book, Permitted(t)); s.done == [] && s.hit == None && s.accepted == t == s.Tail()
  {
    hide KeyEndsAt, KeyStart, Best, Advance, SuffixesUp, Here, Step;
    if t != [] {
      var u, c := t[..|t| - 1], t[|t| - 1];
      assert t == u + [c];
      KeyEndsStable(book, u, [c]);
      NoKeyRun(book, u);
      RunPush(book, u, c);
      BestIsLongest(book, u, c);
      StepTail(book, Run(book, Permitted(u)), c, true);
    }
  }

  /** The first key of all has just been completed: it is pending, not replaced. */
  lemma FirstKeyWaits(book: Book, u: Text)
    requires book.WellFormed() && u != []
    requires forall i :: 0 <= i < |u| ==> !KeyEndsAt(book, u, i)
    ensures Run(book, Permitted(u)).done == [] && Run(book, Permitted(u)).accepted == u
  {
    hide KeyEndsAt, KeyStart, SuffixesUp, Advance, Best;
    var v, d := u[..|u| - 1], u[|u| - 1];
    assert u == v + [d];
    KeyEndsStable(book, v, [d]);
    NoKeyRun(book, v);
    RunPush(book, v, d);
    BestOfNone(book, None);
  }

  /** A key is completed, but a partial match reads on: nothing has been replaced yet. */
  lemma KeyOutlived(book: Book, u: Text, n: Node, c: byte)
    requires book.WellFormed() && u != []
    requires forall i :: 0 <= i < |u| ==> !KeyEndsAt(book, u, i)
    requires Reached(book, u, n) && Child(book, n, c).Some?
    ensures Run(book, Permitted(u + [c])).done == []
  {
    hide KeyEndsAt, SuffixesUp, Advance, Best, Child, Reached, Run;
    FirstKeyWaits(book, u);
    RunPush(book, u, c);
    SuffixesUpExact(book, u);
    AdvanceMember(book, SuffixesUp(book, u), n, c);
  }

  lemma {:induction false} AdvanceMember(book: Book, ns: seq<Node>, n: Node, c: byte)
    requires n in ns && Child(book, n, c).Some?
    ensures Advance(book, ns, c) != []
  {
    if ns[0] != n {
      AdvanceMember(book, ns[1..], n, c);
    }
  }

  lemma {:induction false} PrefixIsNode(d: Dict, p: Text, i: nat)
    requires d.WellFormed() && p in d.paths && 0 < i <= |p|
    ensures p[..i] in d.paths
    decreases |p|
  {
    if i < |p| {
      PrefixIsNode(d, p[..|p| - 1], i);
      assert p[..|p| - 1][..i] == p[..i];
    } else {
      assert p[..i] == p;
    }
  }

  /** The first key of `u` ends with `u`, and a partial match on `m` can read on. */
  ghost predicate Outlives(book: Book, u: Text, m: Node, c: byte) {
    && u != [] && FirstEnd(book, u, 0) == Some(|u|)
    && Reached(book, u, m) && Child(book, m, c).Some?
  }

  /** Whatever the clash, some text has its first key outlived. */
  lemma {:induction false} ClashText(book: Book, key: Text, n: Node) returns (u: Text, m: Node, c: byte)
    requires RenaBook(book) && Clash(book, key, n)
    ensures IsLowerText(u) && Outlives(book, u, m, c)
    decreases if |key| <= |n.path| then |n.path| else |key|
  {
    hide KeyEndsAt, KeyStart, Reached;
    u := if |key| <= |n.path| then n.path else key;
    m := if |key| <= |n.path| then n else Node(!book.first.HasKey(key), key);
    ClashEnds(book, key, n, u);
    var e := FirstEnd(book, u, 0).value;
    if e < |u| {
      EarlierClash(book, u, m, e);
      u, m, c := ClashText(book, u[..e][KeyStart(book, u[..e])..], Node(m.second, u[..e]));
    } else {
      c :| Child(book, n, c).Some?;
      m := n;
    }
  }

  /** Whatever the clash, some text is rewritten differently from the specification. */
  lemma ClashDeviates(book: Book, key: Text, n: Node) returns (t: Text)
    requires RenaBook(book) && Clash(book, key, n)
    ensures RenaRewrite(book, t) != Lagged(book, t)
  {
    hide KeyEndsAt, KeyStart, Rewrite, Run;
    var u, m, c := ClashText(book, key, n);
    t := u + [c];
    KeyOutlived(book, u, m, c);
    assert t[..|t| - 1] == u;
    RewriteReplaces(book, u);
  }

  lemma RewriteReplaces(book: Book, u: Text)
    requires FirstEnd(book, u, 0).Some?
    ensures Rewrite(book, u).pieces != []
  {
  }

  /** The longer of the two spells a lower-case node, reaches `n`, and ends with the key. */
  lemma ClashEnds(book: Book, key: Text, n: Node, u: Text)
    requires RenaBook(book) && Clash(book, key, n)
    requires u == if |key| <= |n.path| then n.path else key
    ensures IsLowerText(u) && Reached(book, u, n) && FirstEnd(book, u, 0).Some?
    ensures |key| <= |n.path| || key in DictOf(book, Node(!book.first.HasKey(key), key)).paths
  {
    LowerIsSelf(key);
    LowerIsSelf(n.path);
    var s := |u| - |key|;
    assert u[s..|u|] == u[s..];
    assert KeyEndsAt(book, u, |u|);
    var k := |u| - |n.path|;
    assert SpellsNode(book, u[k..], n);
  }

  lemma LowerIsSelf(t: Text)
    ensures IsLowerText(t) ==> LowerText(t) == t
  {
  }

  /** A key that ends inside a node's path clashes with the node where it ends. */
  lemma EarlierClash(book: Book, u: Text, m: Node, e: nat)
    requires RenaBook(book) && IsLowerText(u)
    requires m.path == u && u in DictOf(book, m).paths
    requires 0 < e < |u| && KeyEndsAt(book, u, e)
    ensures KeyEndsAt(book, u[..e], e)
    ensures Clash(book, u[..e][KeyStart(book, u[..e])..], Node(m.second, u[..e]))
  {
    hide KeyEndsAt, KeyStart;
    EndOfPrefix(book, u, e);
    var v := u[..e];
    var d := DictOf(book, m);
    PrefixIsNode(d, u, e);
    PrefixIsNode(d, u, e + 1);
    assert u[..e + 1] == v + [u[e]];
    assert Child(book, Node(m.second, v), u[e]).Some?;
  }

  /** rena's unrestricted rewriting agrees with the specification on every text
  exactly when no key of the rule set clashes with an inner node. */
  lemma ExactIffSafe(book: Book)
    requires RenaBook(book)
    ensures Safe(book) <==> forall t: Text :: RenaRewrite(book, t) == Lagged(book, t)
  {
    hide Rewrite, Run, Clash, RenaBook;
    if Safe(book) {
      forall t: Text
        ensures RenaRewrite(book, t) == Lagged(book, t)
      {
        SafeIsExact(book, t);
      }
    } else {
      var key, n :| Clash(book, key, n);
      var t := ClashDeviates(book, key, n);
    }
  }

  lemma SafeIsExact(book: Book, t: Text)
    requires RenaBook(book) && Safe(book)
    ensures RenaRewrite(book, t) == Lagged(book, t)
  {
    hide Rewrite, SuffixesUp, KeyEndsAt, KeyStart, Inv;
    if t != [] {
      var u, c := t[..|t| - 1], t[|t| - 1];
      assert u + [c] == t;
      SafeFollows(book, u, c);
    }
  }

  // ----- the bytes themselves

  /** What rena makes of a whole stream when no context restricts it. */
  function StreamText(book: Book, t: Text): Text {
    Rendered(Run(book, Permitted(t)).done) + Run(book, Permitted(t)).Tail()
  }

  function SpecText(book: Book, t: Text): Text {
    Rendered(Lagged(book, t).pieces) + Lagged(book, t).tail
  }

  predicate IsLetter(b: byte) {
    97 <= b <= 122
  }

  /** Replacing a key can be seen: some way to write it differs from its replacement. */
  ghost predicate Visible(book: Book, key: Text)
    requires book.Fires(key)
  {
    (exists i :: 0 <= i < |key| && IsLetter(key[i])) || book.Replacement(key) != key
  }

  ghost predicate AllVisible(book: Book) {
    forall key :: book.Fires(key) && IsLowerText(key) ==> Visible(book, key)
  }

  /** Case does not matter to what fires, nor to the replacement. */
  lemma FiresRecased(book: Book, v: Text, w: Text)
    requires RenaBook(book) && LowerText(v) == LowerText(w)
    ensures book.Fires(v) == book.Fires(w)
    ensures book.Fires(v) ==> book.Replacement(v) == book.Replacement(w)
  {
    assert |v| == |LowerText(v)| == |w|;
  }

  lemma LowerSlice(u: Text, v: Text, i: nat, j: nat)
    requires LowerText(u) == LowerText(v) && i <= j <= |u|
    ensures |u| == |v| && LowerText(u[i..j]) == LowerText(v[i..j])
  {
    assert |u| == |LowerText(u)| == |v|;
    assert forall k :: 0 <= k < |u| ==> Lower(u[k]) == LowerText(u)[k] == LowerText(v)[k];
  }

  lemma EndsRecased(book: Book, u: Text, v: Text)
    requires RenaBook(book) && LowerText(u) == LowerText(v)
    ensures |u| == |v| && forall e :: 0 <= e <= |u| ==> KeyEndsAt(book, u, e) == KeyEndsAt(book, v, e)
  {
    hide RenaBook, Book.Fires;
    LowerSlice(u, v, 0, 0);
    forall e, i | 0 <= i < e <= |u|
      ensures book.Fires(u[i..e]) == book.Fires(v[i..e])
    {
      LowerSlice(u, v, i, e);
      FiresRecased(book, u[i..e], v[i..e]);
    }
  }

  lemma StartRecased(book: Book, u: Text, v: Text)
    requires RenaBook(book) && LowerText(u) == LowerText(v) && KeyEndsAt(book, u, |u|)
    ensures |u| == |v| && KeyEndsAt(book, v, |v|) && KeyStart(book, u) == KeyStart(book, v)
  {
    hide RenaBook, Book.Fires, KeyEndsAt, KeyStart;
    EndsRecased(book, u, v);
    forall i | 0 <= i <= |u|
      ensures book.Fires(u[i..]) == book.Fires(v[i..])
    {
      LowerSlice(u, v, i, |u|);
      assert u[i..|u|] == u[i..] && v[i..|v|] == v[i..];
      FiresRecased(book, u[i..], v[i..]);
    }
  }

  lemma FirstEndAgrees(book: Book, u: Text, v: Text)
    requires |u| == |v| && forall e :: 0 <= e <= |u| ==> KeyEndsAt(book, u, e) == KeyEndsAt(book, v, e)
    ensures FirstEnd(book, u, 0) == FirstEnd(book, v, 0)
  {
    hide KeyEndsAt, FirstEnd;
  }

  lemma RenaIsWellFormed(book: Book)
    requires RenaBook(book)
    ensures book.WellFormed()
  {
  }

  lemma RenaFloor(book: Book)
    requires RenaBook(book)
    ensures book.floor < -128
  {
  }

  lemma SpellsRecased(book: Book, v: Text, w: Text, m: Node)
    requires book.floor < -128 && LowerText(v) == LowerText(w) && SpellsNode(book, v, m)
    ensures SpellsNode(book, w, m)
  {
    assert |v| == |LowerText(v)| == |LowerText(w)| == |w|;
  }

  lemma ReachedRecased(book: Book, u: Text, v: Text, m: Node)
    requires book.floor < -128 && LowerText(u) == LowerText(v) && Reached(book, u, m)
    ensures Reached(book, v, m)
  {
    hide SpellsNode, LowerText;
    var k :| 0 <= k < |u| && SpellsNode(book, u[k..], m);
    LowerSlice(u, v, k, |u|);
    assert u[k..|u|] == u[k..] && v[k..|v|] == v[k..];
    SpellsRecased(book, u[k..], v[k..], m);
  }

  lemma OutlivesRecased(book: Book, u: Text, v: Text, m: Node, c: byte)
    requires RenaBook(book) && LowerText(u) == LowerText(v) && Outlives(book, u, m, c)
    ensures Outlives(book, v, m, c)
  {
    hide KeyEndsAt, Child, FirstEnd, RenaBook, Reached;
    EndsRecased(book, u, v);
    FirstEndAgrees(book, u, v);
    RenaFloor(book);
    ReachedRecased(book, u, v, m);
  }

  lemma OutlivedStream(book: Book, u: Text, m: Node, c: byte)
    requires book.WellFormed() && Outlives(book, u, m, c)
    ensures StreamText(book, u + [c]) == u + [c]
  {
    hide KeyEndsAt, KeyStart, Run, Reached, Child, FirstEnd, Inv, State.Tail;
    var t := u + [c];
    KeyOutlived(book, u, m, c);
    RunConserves(book, Permitted(t));
    RawOfPermitted(t);
    assert Source([]) == [] && Rendered([]) == [];
  }

  /** rena leaves such a text as it is; the specification replaces the key at its end. */
  lemma OutlivedText(book: Book, u: Text, m: Node, c: byte)
    requires RenaBook(book) && Outlives(book, u, m, c)
    ensures KeyEndsAt(book, u, |u|) && StreamText(book, u + [c]) == u + [c]
    ensures var s := KeyStart(book, u); SpecText(book, u + [c]) == u[..s] + book.Replacement(u[s..]) + [c]
  {
    hide KeyEndsAt, KeyStart, StreamText, Run, Reached, Child, Rewrite, RenaBook, FirstEnd, Rendered;
    RenaIsWellFormed(book);
    OutlivedStream(book, u, m, c);
    OnePiece(book, u);
    assert (u + [c])[..|u|] == u;
    var r := Rewrite(book, u);
    assert SpecText(book, u + [c]) == Rendered(r.pieces) + (r.tail + [c]) == Rendered(r.pieces) + r.tail + [c];
  }

  lemma OnePiece(book: Book, u: Text)
    requires FirstEnd(book, u, 0) == Some(|u|)
    ensures KeyEndsAt(book, u, |u|)
    ensures var (r, s) := (Rewrite(book, u), KeyStart(book, u));
      Rendered(r.pieces) + r.tail == u[..s] + book.Replacement(u[s..])
  {
    hide KeyEndsAt, KeyStart;
    assert u[..|u|] == u && u[|u|..] == [];
    var s := KeyStart(book, u);
    var p := Piece(u[..s], u[s..], book.Replacement(u[s..]));
    assert Rewrite(book, u[|u|..]) == Rewriting([], []);
    assert [p] + [] == [] + [p];
    RenderedPush([], p);
  }

  lemma {:induction false} RawOfPermitted(t: Text)
    ensures Raw(Permitted(t)) == t
  {
    if t != [] {
      var u := t[..|t| - 1];
      PermittedPush(u, t[|t| - 1]);
      assert u + [t[|t| - 1]] == t;
      RawOfPermitted(u);
    }
  }

  /** A key that is replaced by itself shows when one of its letters is a capital. */
  lemma CapitalShows(book: Book, u: Text, m: Node, c: byte, i: nat)
    requires RenaBook(book) && Outlives(book, u, m, c) && KeyEndsAt(book, u, |u|)
    requires var s := KeyStart(book, u); s <= i < |u| && IsLetter(u[i]) && book.Replacement(u[s..]) == u[s..]
    ensures var t := u[i := u[i] - 32] + [c]; StreamText(book, t) != SpecText(book, t)
  {
    hide KeyEndsAt, KeyStart, StreamText, SpecText, Outlives, RenaBook;
    var v, s := u[i := u[i] - 32], KeyStart(book, u);
    Recase(u, i);
    OutlivesRecased(book, u, v, m, c);
    StartRecased(book, u, v);
    OutlivedText(book, v, m, c);
    LowerSlice(u, v, s, |u|);
    assert u[s..|u|] == u[s..] && v[s..|v|] == v[s..];
    FiresRecased(book, u[s..], v[s..]);
    assert v[s..][i - s] != u[s..][i - s];
    SameMiddle(v, s, u[s..], c);
  }

  /** For every clash some text, in some casing, leaves rena with other bytes. */
  lemma ClashShows(book: Book, key: Text, n: Node) returns (t: Text)
    requires RenaBook(book) && AllVisible(book) && Clash(book, key, n)
    ensures StreamText(book, t) != SpecText(book, t)
  {
    hide KeyEndsAt, KeyStart, StreamText, SpecText, Outlives, RenaBook, Clash, Book.Fires;
    var u, m, c := ClashText(book, key, n);
    OutlivedText(book, u, m, c);
    var s := KeyStart(book, u);
    var w := u[s..];
    t := u + [c];
    SameMiddle(u, s, book.Replacement(w), c);
    if StreamText(book, t) == SpecText(book, t) {
      assert Visible(book, w);
      var j :| 0 <= j < |w| && IsLetter(w[j]);
      CapitalShows(book, u, m, c, s + j);
      t := u[s + j := u[s + j] - 32] + [c];
    }
  }

  lemma SameMiddle(u: Text, s: nat, put: Text, c: byte)
    requires s <= |u|
    ensures u + [c] == u[..s] + put + [c] ==> u[s..] == put
  {
    var t := u + [c];
    if t == u[..s] + put + [c] {
      assert |put| == |u| - s;
      assert t[s..|u|] == u[s..] && (u[..s] + put + [c])[s..|u|] == put;
    }
  }

  /** Writing a letter as a capital. */
  lemma Recase(u: Text, i: nat)
    requires i < |u| && IsLetter(u[i])
    ensures LowerText(u[i := u[i] - 32]) == LowerText(u)
  {
  }

  /** When every replacement can be seen, the bytes that leave rena are the specification's
  for every text exactly when no key of the rules clashes with an inner node. */
  lemma ExactBytesIffSafe(book: Book)
    requires RenaBook(book) && AllVisible(book)
    ensures Safe(book) <==> forall t: Text :: StreamText(book, t) == SpecText(book, t)
  {
    hide Rewrite, Run, Clash, RenaBook, Rendered, AllVisible;
    if Safe(book) {
      forall t: Text
        ensures StreamText(book, t) == SpecText(book, t)
      {
        SafeIsExact(book, t);
      }
    } else {
      var key, n :| Clash(book, key, n);
      var t := ClashShows(book, key, n);
    }
  }
}
