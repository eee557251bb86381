/** rena's matcher on the heap: the partial matches are nodes of the two tries that the
insertions built, and a byte takes each to one of its children. */
module RenaTries {
  import opened Bytes
  import opened Wrappers
  import opened Rules
  import opened PartialMatches
  import opened TrieHeap
  import opened TrieView
  import opened RenaTrie
  import opened RenaMatching
  import opened RenaExactness
  import opened RenaPull
  import RenaRules
  import RenaProxy

  /** A partial match: a node of a trie, and how many bytes led to it. */
  datatype Cursor = Cursor(node: TreeNode, depth: nat)

  /** The tries that a stream is matched against. */
  datatype Tries = Tries(side: Trie<Option<Text>>, never: Trie<Option<Text>>) {

    ghost predicate Valid()
      reads side, side.nodes, never, never.nodes
    {
      side.Valid() && never.Valid()
    }

    /** The dictionaries that the matchers speak about. */
    ghost function BookOf(): Book
      reads side, side.nodes, never, never.nodes
    {
      Book(View(side), View(never), -129)
    }

    ghost function TrieOf(second: bool): Trie<Option<Text>> {
      if second then never else side
    }

    /** The cursor is at the node that the dictionary's node names. */
    ghost predicate IsAt(cur: Cursor, n: PartialMatches.Node)
      reads side, never
    {
      n.path != [] && cur.depth == |n.path| && n.path in TrieOf(n.second).shape.at &&
      TrieOf(n.second).shape.at[n.path] == cur.node
    }

    ghost predicate Stand(cs: seq<Cursor>, ns: seq<PartialMatches.Node>)
      reads side, never
    {
      |cs| == |ns| && forall i :: 0 <= i < |ns| ==> IsAt(cs[i], ns[i])
    }

    /** What is stored at a node is the dictionary's rule. */
    lemma TextIsRule(cur: Cursor, n: PartialMatches.Node)
      requires Valid() && IsAt(cur, n)
      ensures RuleAt(BookOf(), n) == cur.node.adapted && cur.depth == |n.path|
    {
      hide Trie.Valid;
      var t := TrieOf(n.second);
      t.OnPaths();
      RuleOfPath(t.shape.at, Texts(t), n.path);
    }

    lemma PathsAreNodes(second: bool)
      ensures var t := TrieOf(second);
        forall p :: p != [] ==> (p in t.shape.at <==> p in DictOf(BookOf(), PartialMatches.Node(second, p)).paths)
    {
    }

    /** `tree_get_child` on the node of a cursor. */
    method Follow(cur: Cursor, c: byte, ghost n: PartialMatches.Node) returns (next: Option<Cursor>)
      requires Valid() && IsAt(cur, n)
      ensures next.Some? <==> Child(BookOf(), n, c).Some?
      ensures next.Some? ==> IsAt(next.value, Child(BookOf(), n, c).value)
    {
      hide Trie.Valid, View;
      var r := GetChild(TrieOf(n.second), cur.node, c, n.path);
      TrieOf(n.second).OnPaths();
      PathsAreNodes(n.second);
      next := if r == null then None else Some(Cursor(r, cur.depth + 1));
    }

    /** `tree_get_sibling` from the root of one of the tries. */
    method Begin(first: TrieHeap.Node?<Option<Text>>, c: byte, ghost second: bool) returns (cs: seq<Cursor>)
      requires Valid() && first == TrieOf(second).root
      ensures Stand(cs, Here1(BookOf(), [c], second))
    {
      hide Trie.Valid, View;
      ghost var t := TrieOf(second);
      t.OnPaths();
      t.Siblings(null);
      var r := GetSibling(t, first, c, []);
      PathsAreNodes(second);
      assert [] + [Lower(c)] == LowerText([c]);
      cs := if r == null then [] else [Cursor(r, 1)];
    }

    /** New partial matches: the side's trie first. */
    method Start(c: byte) returns (cs: seq<Cursor>)
      requires Valid()
      ensures Stand(cs, Here(BookOf(), [c]))
    {
      hide Trie.Valid, View, IsAt, LowerText;
      var a := Begin(side.root, c, false);
      var b := Begin(never.root, c, true);
      cs := a + b;
    }

    /** Every cursor that can read the byte one node further, and the pending match after
    their nodes were visited. */
    method AdvanceAll(cs: seq<Cursor>, hit: Option<Hit>, c: byte, ghost ns: seq<PartialMatches.Node>)
        returns (next: seq<Cursor>, best: Option<Hit>)
      requires Valid() && Stand(cs, ns)
      ensures var all := Advance(BookOf(), ns, c); Stand(next, all) && best == Best(BookOf(), hit, all)
    {
      hide Trie.Valid, View, IsAt, Child, RuleAt, Advance, Best;
      ghost var book := BookOf();
      NothingAdvances(book, c);
      BestOfNone(book, hit);
      ghost var done: seq<PartialMatches.Node> := [];
      next, best := [], hit;
      var i := 0;
      while i < |cs|
        invariant i <= |cs| && Stand(next, done)
        invariant Advance(book, ns, c) == done + Advance(book, ns[i..], c)
        invariant best == Best(book, hit, done)
      {
        ghost var child := Child(book, ns[i], c);
        AdvanceCons(book, ns[i..], c);
        assert ns[i..][1..] == ns[i + 1..];
        var cur := Follow(cs[i], c, ns[i]);
        if cur.Some? {
          TextIsRule(cur.value, child.value);
          BestPush(book, hit, done, child.value);
          var text := cur.value.node.adapted;
          if text.Some? && (best.None? || best.value.consume < cur.value.depth) {
            best := Some(Hit(text.value, cur.value.depth));
          }
          next := next + [cur.value];
          Joined(done, child.value, Advance(book, ns[i + 1..], c));
          done := done + [child.value];
        } else {
          assert [] + Advance(book, ns[i + 1..], c) == Advance(book, ns[i + 1..], c);
        }
        i := i + 1;
      }
      assert ns[i..] == [] && done + [] == done;
    }

    /** One byte of the stream, with the context's verdict on it. */
    method LookupByte(cs: seq<Cursor>, hit: Option<Hit>, c: byte, permitted: bool, ghost accepted: Text)
        returns (next: seq<Cursor>, pending: Option<Hit>, answer: Output, cut: nat)
      requires Valid() && BookOf().WellFormed() && Stand(cs, SuffixesUp(BookOf(), accepted))
      ensures var d := Decide(BookOf(), accepted, hit, c, permitted);
        pending == d.hit && answer == d.answer && cut == d.cut && Stand(next, SuffixesUp(BookOf(), d.accepted))
    {
      hide Trie.Valid, View, IsAt, Advance, SuffixesUp, Here, Best;
      next, pending, cut := cs, hit, 0;
      if permitted {
        SuffixesUpStep(BookOf(), accepted, c);
        next, pending := AdvanceAll(cs, hit, c, SuffixesUp(BookOf(), accepted));
        var empty := next == [];
        var start := Start(c);
        next := start + next;
        if empty && pending.Some? {
          return next, None, TransformationFound(pending.value.phrase), pending.value.consume;
        }
      }
      answer := if next == [] then NotHold else FeedMe;
    }
  }

  lemma BestPush(book: Book, hit: Option<Hit>, ns: seq<PartialMatches.Node>, n: PartialMatches.Node)
    ensures var (best, rule) := (Best(book, hit, ns), RuleAt(book, n));
      Best(book, hit, ns + [n]) ==
        if rule.Some? && (best.None? || best.value.consume < |n.path|) then Some(Hit(rule.value, |n.path|)) else best
  {
    BestAppend(book, hit, ns, [n]);
  }

  lemma Joined(a: seq<PartialMatches.Node>, n: PartialMatches.Node, b: seq<PartialMatches.Node>)
    ensures a + ([n] + b) == a + [n] + b
  {
  }

  /** Insertions into two tries on the heap, and a stream matched by following their nodes: the
  bytes that leave, flush included, are those of the machine on the inserted rules. */
  method StreamOnTries(side: seq<RenaRules.Insertion>, never: seq<RenaRules.Insertion>, js: seq<Judged>)
      returns (out: Text)
    ensures var s := Run(RenaProxy.RuleBook(side, never), js); out == Rendered(s.done) + s.Tail()
  {
    hide RenaRules.After, Run, Decide, Deliver, Rendered, State.Emitted, State.Tail, Tries.Stand;
    hide Trie.Valid, View, SuffixesUp, RenaBook;
    RenaProxy.RuleBookIsRena(side, never);
    var a := RenaRules.Build(side);
    var b := RenaRules.Build(never);
    var tries := Tries(a, b);
    ghost var book := tries.BookOf();
    assert book == RenaProxy.RuleBook(side, never);
    RenaIsWellFormed(book);
    var cs: seq<Cursor>, hit: Option<Hit>, held: Text := [], None, [];
    out := [];
    NothingYet(book, tries);
    var i := 0;
    while i < |js|
      invariant i <= |js| && tries.Valid() && tries.BookOf() == book
      invariant tries.Stand(cs, SuffixesUp(book, Run(book, js[..i]).accepted))
      invariant hit == Run(book, js[..i]).hit && held == Run(book, js[..i]).held
      invariant out == Run(book, js[..i]).Emitted()
    {
      assert js[..i + 1] == js[..i] + [js[i]];
      DeliverStep(book, js[..i], js[i]);
      var answer, cut;
      cs, hit, answer, cut := tries.LookupByte(cs, hit, js[i].c, js[i].permitted, Run(book, js[..i]).accepted);
      var after := Deliver(out, held, js[i].c, answer, cut);
      out, held := after.0, after.1;
      i := i + 1;
    }
    assert js[..i] == js;
    EmittedAndHeld(Run(book, js));
    out := out + held;
  }

  /** Lets go of what is held, holds on, or lets the rest and the replacement go. */
  function Deliver(out: Text, held: Text, c: byte, answer: Output, cut: nat): (Text, Text)
    requires cut <= |held|
  {
    var kept := held[..|held| - cut];
    match answer
    case NotHold => (out + (kept + [c]), [])
    case FeedMe => (out, kept + [c])
    case TransformationFound(phrase) => (out + kept + phrase, [c])
  }

  /** It is what the machine does with its output and the bytes it holds. */
  lemma DeliverStep(book: Book, js: seq<Judged>, j: Judged)
    requires book.WellFormed()
    ensures var (s, now) := (Run(book, js), Run(book, js + [j]));
      var d := Decide(book, s.accepted, s.hit, j.c, j.permitted);
      && now.accepted == d.accepted && now.hit == d.hit && d.cut <= |s.held|
      && Deliver(s.Emitted(), s.held, j.c, d.answer, d.cut) == (now.Emitted(), now.held)
  {
    hide Run, Step, Decide, Inv, State.Emitted, SuffixesUp;
    RunConserves(book, js);
    RunAppend(book, js, j);
    StepOutput(book, Run(book, js), j.c, j.permitted);
  }

  lemma EmittedAndHeld(s: State)
    ensures s.Emitted() + s.held == Rendered(s.done) + s.Tail()
  {
    assert s.Emitted() + s.held == Rendered(s.done) + (s.out + s.held);
  }

  lemma NothingYet(book: Book, tries: Tries)
    ensures Run(book, []) == START && START.Emitted() == [] && tries.Stand([], SuffixesUp(book, []))
  {
  }
}
