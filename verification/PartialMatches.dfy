/** The all-suffixes matcher: which nodes of the two tries the read bytes reach. */
module PartialMatches {
  import opened Bytes
  import opened Wrappers
  import opened Rules

  /** A node of one of the two tries, named by its path. */
  datatype Node = Node(second: bool, path: Text)

  function DictOf(book: Book, n: Node): Dict {
    if n.second then book.second else book.first
  }

  /** `tree_get_child`: the child of `n` for byte `c`. */
  function Child(book: Book, n: Node, c: byte): (r: Option<Node>)
    ensures r.Some? ==> |r.value.path| == |n.path| + 1
  {
    var p := n.path + [Lower(c)];
    if p in DictOf(book, n).paths then Some(Node(n.second, p)) else None
  }

  /** The replacement stored at `n`, when a key ends there. */
  function RuleAt(book: Book, n: Node): Option<Text> {
    var d := DictOf(book, n);
    if n.path in d.rule then Some(d.rule[n.path]) else None
  }

  /** The nodes that the whole of `p` reaches, the first trie's before the second's. */
  function Here(book: Book, p: Text): seq<Node> {
    if p == [] || p[0] as int <= book.floor then []
    else
      (if book.first.HasNode(p) then [Node(false, LowerText(p))] else []) +
      (if book.second.HasNode(p) then [Node(true, LowerText(p))] else [])
  }

  /** The nodes reached by some suffix of `p`, longest suffix first. */
  function Suffixes(book: Book, p: Text): seq<Node> {
    if p == [] then [] else Here(book, p) + Suffixes(book, p[1..])
  }

  /** The nodes reached by some suffix of `p`, shortest suffix first. */
  function SuffixesUp(book: Book, p: Text): seq<Node> {
    if p == [] then [] else SuffixesUp(book, p[1..]) + Here(book, p)
  }

  /** Every node that can read `c`, one step further, in the same order. */
  function Advance(book: Book, ns: seq<Node>, c: byte): seq<Node> {
    if ns == [] then []
    else
      var next := Child(book, ns[0], c);
      (if next.Some? then [next.value] else []) + Advance(book, ns[1..], c)
  }

  lemma AdvanceCons(book: Book, ns: seq<Node>, c: byte)
    requires ns != []
    ensures var next := Child(book, ns[0], c);
      Advance(book, ns, c) == (if next.Some? then [next.value] else []) + Advance(book, ns[1..], c)
  {
  }

  lemma {:induction false} AdvanceAppend(book: Book, a: seq<Node>, b: seq<Node>, c: byte)
    ensures Advance(book, a + b, c) == Advance(book, a, c) + Advance(book, b, c)
  {
    if a == [] {
      assert a + b == b;
    } else {
      AdvanceAppend(book, a[1..], b, c);
      AdvancePast(book, a, b, c);
    }
  }

  lemma AdvancePast(book: Book, a: seq<Node>, b: seq<Node>, c: byte)
    requires a != [] && Advance(book, a[1..] + b, c) == Advance(book, a[1..], c) + Advance(book, b, c)
    ensures Advance(book, a + b, c) == Advance(book, a, c) + Advance(book, b, c)
  {
    hide Child, Advance;
    assert (a + b)[1..] == a[1..] + b && (a + b)[0] == a[0];
    AdvanceCons(book, a, c);
    AdvanceCons(book, a + b, c);
  }

  lemma NothingAdvances(book: Book, c: byte)
    ensures Advance(book, [], c) == []
  {
  }

  lemma AdvanceHere(book: Book, p: Text, c: byte)
    requires book.WellFormed() && p != []
    ensures Advance(book, Here(book, p), c) == Here(book, p + [c])
  {
    hide Advance, Dict.WellFormed;
    NothingAdvances(book, c);
    AdvanceAppend(book, Here1(book, p, false), Here1(book, p, true), c);
    AdvanceHere1(book, p, c, false);
    AdvanceHere1(book, p, c, true);
    assert p[0] == (p + [c])[0];
  }

  /** The node that the whole of `p` reaches in one of the tries. */
  function Here1(book: Book, p: Text, second: bool): seq<Node> {
    if LowerText(p) in DictOf(book, Node(second, p)).paths then [Node(second, LowerText(p))] else []
  }

  lemma AdvanceHere1(book: Book, p: Text, c: byte, second: bool)
    requires book.WellFormed() && p != []
    ensures Advance(book, Here1(book, p, second), c) == Here1(book, p + [c], second)
  {
    assert LowerText(p + [c]) == LowerText(p) + [Lower(c)];
    assert LowerText(p + [c])[..|p|] == LowerText(p);
  }

  /** Reading `c` turns the suffixes of `p` into those of `p + [c]`, minus the new one. */
  lemma {:induction false} SuffixesStep(book: Book, p: Text, c: byte)
    requires book.WellFormed()
    ensures Suffixes(book, p + [c]) == Advance(book, Suffixes(book, p), c) + Here(book, [c])
  {
    hide Here;
    var q := p + [c];
    if p == [] {
      assert q == [c] && q[1..] == [];
      assert Suffixes(book, q) == Here(book, q) + Suffixes(book, q[1..]);
    } else {
      var h, rest := Here(book, p), Suffixes(book, p[1..]);
      assert q[1..] == p[1..] + [c];
      calc {
        Suffixes(book, q);
        Here(book, q) + Suffixes(book, p[1..] + [c]);
        { SuffixesStep(book, p[1..], c); AdvanceHere(book, p, c); }
        Advance(book, h, c) + (Advance(book, rest, c) + Here(book, [c]));
        { AdvanceAppend(book, h, rest, c); }
        Advance(book, h + rest, c) + Here(book, [c]);
      }
    }
  }

  lemma {:induction false} SuffixesUpStep(book: Book, p: Text, c: byte)
    requires book.WellFormed()
    ensures SuffixesUp(book, p + [c]) == Here(book, [c]) + Advance(book, SuffixesUp(book, p), c)
  {
    hide Here;
    var q := p + [c];
    if p == [] {
      assert q == [c] && q[1..] == [];
      assert SuffixesUp(book, q) == SuffixesUp(book, q[1..]) + Here(book, q);
    } else {
      var h, rest := Here(book, p), SuffixesUp(book, p[1..]);
      assert q[1..] == p[1..] + [c];
      calc {
        SuffixesUp(book, q);
        SuffixesUp(book, p[1..] + [c]) + Here(book, q);
        { SuffixesUpStep(book, p[1..], c); AdvanceHere(book, p, c); }
        (Here(book, [c]) + Advance(book, rest, c)) + Advance(book, h, c);
        { AdvanceAppend(book, rest, h, c); }
        Here(book, [c]) + Advance(book, rest + h, c);
      }
    }
  }

  ghost predicate SpellsNode(book: Book, s: Text, n: Node) {
    s != [] && s[0] as int > book.floor && n.path == LowerText(s) && n.path in DictOf(book, n).paths
  }

  /** Some non-empty suffix of `p` spells `n`. */
  ghost predicate Reached(book: Book, p: Text, n: Node) {
    exists k :: 0 <= k < |p| && SpellsNode(book, p[k..], n)
  }

  lemma ReachedStep(book: Book, p: Text, n: Node)
    requires p != []
    ensures Reached(book, p, n) <==> n in Here(book, p) || Reached(book, p[1..], n)
  {
    assert p[0..] == p;
    if Reached(book, p, n) {
      var k :| 0 <= k < |p| && SpellsNode(book, p[k..], n);
      if 0 < k {
        assert p[1..][k - 1..] == p[k..];
      }
    }
    if Reached(book, p[1..], n) {
      var k :| 0 <= k < |p[1..]| && SpellsNode(book, p[1..][k..], n);
      assert p[1..][k..] == p[k + 1..];
    }
  }

  /** Decreasing depth, first trie before second: no two nodes share trie and depth. */
  predicate Before(a: Node, b: Node) {
    |b.path| < |a.path| || (|a.path| == |b.path| && !a.second && b.second)
  }

  /** Increasing depth, first trie before second. */
  predicate BeforeUp(a: Node, b: Node) {
    |a.path| < |b.path| || (|a.path| == |b.path| && !a.second && b.second)
  }

  /** The nodes of the whole of `p` are deeper than those of its proper suffixes. */
  lemma HereIsDeeper(book: Book, p: Text)
    requires p != []
    ensures forall i, j :: 0 <= i < j < |Here(book, p)| ==>
      Before(Here(book, p)[i], Here(book, p)[j]) && BeforeUp(Here(book, p)[i], Here(book, p)[j])
    ensures forall m, n :: m in Here(book, p) && Reached(book, p[1..], n) ==> Before(m, n) && BeforeUp(n, m)
  {
  }

  lemma NothingReached(book: Book)
    ensures forall n :: !Reached(book, [], n)
  {
  }

  /** Exactly one entry per trie and suffix that spells one of its nodes. */
  lemma {:induction false} SuffixesExact(book: Book, p: Text)
    ensures forall n :: n in Suffixes(book, p) <==> Reached(book, p, n)
    ensures forall i, j :: 0 <= i < j < |Suffixes(book, p)| ==>
      Before(Suffixes(book, p)[i], Suffixes(book, p)[j])
  {
    hide Reached, Here, Before;
    NothingReached(book);
    if p != [] {
      SuffixesExact(book, p[1..]);
      forall n
        ensures n in Suffixes(book, p) <==> Reached(book, p, n)
      {
        ReachedStep(book, p, n);
      }
      var here, rest := Here(book, p), Suffixes(book, p[1..]);
      HereIsDeeper(book, p);
      forall i, j | 0 <= i < j < |here + rest|
        ensures Before((here + rest)[i], (here + rest)[j])
      {
        if |here| <= j {
          assert rest[j - |here|] in rest;
        }
      }
    }
  }

  /** The shortest-first list is the same nodes by increasing depth. */
  lemma {:induction false} SuffixesUpExact(book: Book, p: Text)
    ensures forall n :: n in SuffixesUp(book, p) <==> Reached(book, p, n)
    ensures forall i, j :: 0 <= i < j < |SuffixesUp(book, p)| ==>
      BeforeUp(SuffixesUp(book, p)[i], SuffixesUp(book, p)[j])
  {
    hide Reached, Here, BeforeUp;
    NothingReached(book);
    if p != [] {
      SuffixesUpExact(book, p[1..]);
      forall n
        ensures n in SuffixesUp(book, p) <==> Reached(book, p, n)
      {
        ReachedStep(book, p, n);
      }
      var here, rest := Here(book, p), SuffixesUp(book, p[1..]);
      HereIsDeeper(book, p);
      forall i, j | 0 <= i < j < |rest + here|
        ensures BeforeUp((rest + here)[i], (rest + here)[j])
      {
        if i < |rest| {
          assert rest[i] in rest;
        }
      }
    }
  }

  /** No suffix of what has been read begins a key. */
  ghost predicate Silent(book: Book, t: Text) {
    forall n :: !Reached(book, t, n)
  }

  lemma SilentIff(book: Book, t: Text)
    ensures Silent(book, t) <==> Suffixes(book, t) == []
    ensures Silent(book, t) <==> SuffixesUp(book, t) == []
  {
    hide Reached;
    SuffixesExact(book, t);
    SuffixesUpExact(book, t);
    if Suffixes(book, t) != [] {
      assert Suffixes(book, t)[0] in Suffixes(book, t);
    }
    if SuffixesUp(book, t) != [] {
      assert SuffixesUp(book, t)[0] in SuffixesUp(book, t);
    }
  }

  /** The first node in the list where a key ends. */
  function FirstRule(book: Book, ns: seq<Node>): (n: Option<Node>)
    ensures n.Some? ==> n.value in ns && RuleAt(book, n.value).Some?
    ensures n.None? ==> forall m :: m in ns ==> RuleAt(book, m).None?
  {
    if ns == [] then None
    else if RuleAt(book, ns[0]).Some? then Some(ns[0])
    else FirstRule(book, ns[1..])
  }

  lemma {:induction false} FirstRuleAppend(book: Book, a: seq<Node>, b: seq<Node>)
    ensures FirstRule(book, a + b) == if FirstRule(book, a).Some? then FirstRule(book, a) else FirstRule(book, b)
  {
    if a == [] {
      assert a + b == b;
    } else {
      FirstRuleAppend(book, a[1..], b);
      assert (a + b)[1..] == a[1..] + b;
    }
  }

  /** `n` is the node, and holds the replacement, of the key `w`. */
  ghost predicate IsNodeOf(book: Book, n: Node, w: Text) {
    && n.path == LowerText(w)
    && book.Fires(w)
    && RuleAt(book, n) == Some(book.Replacement(w))
  }

  lemma HereRule(book: Book, q: Text)
    requires book.WellFormed() && 2 <= |q|
    ensures FirstRule(book, Here(book, q)).Some? <==> book.Fires(q)
    ensures book.Fires(q) ==> IsNodeOf(book, FirstRule(book, Here(book, q)).value, q)
  {
    if q[0] as int > book.floor {
      var f := if book.first.HasNode(q) then [Node(false, LowerText(q))] else [];
      var s := if book.second.HasNode(q) then [Node(true, LowerText(q))] else [];
      FirstRuleAppend(book, f, s);
    }
  }

  lemma FirstRuleStep(book: Book, w: Text, c: byte)
    requires book.WellFormed() && w != []
    ensures var hit := FirstRule(book, Advance(book, Suffixes(book, w), c));
      if book.Fires(w + [c]) then hit.Some? && IsNodeOf(book, hit.value, w + [c])
      else hit == FirstRule(book, Advance(book, Suffixes(book, w[1..]), c))
  {
    var h, rest := Here(book, w), Suffixes(book, w[1..]);
    AdvanceHere(book, w, c);
    HereRule(book, w + [c]);
    AdvanceAppend(book, h, rest, c);
    FirstRuleAppend(book, Here(book, w + [c]), Advance(book, rest, c));
  }

  lemma LongestStartStep(book: Book, q: Text, k: nat)
    requires k < |q|
    ensures (exists i | k <= i < |q| :: book.Fires(q[i..])) <==>
      book.Fires(q[k..]) || exists i | k + 1 <= i < |q| :: book.Fires(q[i..])
    ensures book.Fires(q[k..]) ==> LongestStart(book, q, k) == k
    ensures !book.Fires(q[k..]) && (exists i | k + 1 <= i < |q| :: book.Fires(q[i..])) ==>
      LongestStart(book, q, k) == LongestStart(book, q, k + 1)
  {
    hide Book.Fires;
  }

  lemma OneByteFires(book: Book, c: byte)
    ensures !book.Fires([c]) && FirstRule(book, Advance(book, Suffixes(book, []), c)).None?
  {
  }

  /** Advancing the suffixes of `p` by `c` and taking the first node with a rule
  finds a key exactly when one ends at `c`, and then the longest one. */
  lemma {:induction false} FirstRuleIsLongest(book: Book, p: Text, c: byte, k: nat)
    requires book.WellFormed() && k <= |p|
    ensures var q := p + [c];
      var hit := FirstRule(book, Advance(book, Suffixes(book, p[k..]), c));
      && (hit.Some? <==> exists i | k <= i < |q| :: book.Fires(q[i..]))
      && (hit.Some? ==> IsNodeOf(book, hit.value, q[LongestStart(book, q, k)..]))
    decreases |p| - k
  {
    hide Advance, Suffixes, FirstRule, IsNodeOf, Book.Fires;
    var q := p + [c];
    LongestStartStep(book, q, k);
    if k == |p| {
      assert p[k..] == [] && q[k..] == [c];
      OneByteFires(book, c);
    } else {
      FirstRuleIsLongest(book, p, c, k + 1);
      assert p[k..][1..] == p[k + 1..];
      assert q[k..] == p[k..] + [c];
      FirstRuleStep(book, p[k..], c);
    }
  }

  lemma KeyStartIsLongest(book: Book, q: Text)
    requires KeyEndsAt(book, q, |q|)
    ensures exists i | 0 <= i < |q| :: book.Fires(q[i..])
    ensures LongestStart(book, q, 0) == KeyStart(book, q)
  {
    EndGivesStart(book, q);
  }

  lemma KeyEndsHere(book: Book, q: Text)
    ensures KeyEndsAt(book, q, |q|) <==> exists i | 0 <= i < |q| :: book.Fires(q[i..])
  {
    forall i | 0 <= i < |q|
      ensures q[i..|q|] == q[i..]
    {}
    if KeyEndsAt(book, q, |q|) {
      var s :| 0 <= s < |q| && book.Fires(q[s..|q|]);
      assert book.Fires(q[s..]);
    }
    if i :| 0 <= i < |q| && book.Fires(q[i..]) {
      assert book.Fires(q[i..|q|]);
    }
  }

  /** The first rule met is the longest key that ends with the byte just read. */
  lemma FirstRuleIsKey(book: Book, p: Text, c: byte)
    requires book.WellFormed()
    ensures var q := p + [c];
      var hit := FirstRule(book, Advance(book, Suffixes(book, p), c));
      && (hit.Some? <==> KeyEndsAt(book, q, |q|))
      && (hit.Some? ==> IsNodeOf(book, hit.value, q[KeyStart(book, q)..]))
  {
    hide Suffixes, Advance, FirstRule;
    var q := p + [c];
    assert p[0..] == p;
    FirstRuleIsLongest(book, p, c, 0);
    KeyEndsHere(book, q);
    if KeyEndsAt(book, q, |q|) {
      KeyStartIsLongest(book, q);
    }
  }
}
