/** faproxy's matcher on the heap: the partial matches are nodes of the two tries that the
insertions built, and a byte takes each to one of its children. */
module FaTries {
  import opened Bytes
  import opened Wrappers
  import opened Rules
  import opened PartialMatches
  import opened TrieHeap
  import opened TrieView
  import opened FaTrie
  import opened FaLookup
  import opened FaRewriter
  import FaRules
  import FaProxy

  /** A partial match: a node of a trie, and how many bytes led to it. */
  datatype Cursor = Cursor(node: TreeNode, depth: nat)

  /** The bytes that the matcher has not decided after `c`. */
  function Undecided(pending: Text, c: byte, r: Result): Text {
    if r.TransformOk? then [] else pending + [c]
  }

  /** The tries that a stream is matched against. */
  datatype Tries = Tries(never: Trie<Text>, other: Trie<Text>) {

    ghost predicate Valid()
      reads never, never.nodes, other, other.nodes
    {
      never.Valid() && other.Valid()
    }

    /** The dictionaries that the matchers speak about. */
    ghost function BookOf(): Book
      reads never, never.nodes, other, other.nodes
    {
      Book(View(never), View(other), SPACE as int)
    }

    ghost function TrieOf(second: bool): Trie<Text> {
      if second then other else never
    }

    /** The cursor is at the node that the dictionary's node names. */
    ghost predicate IsAt(cur: Cursor, n: PartialMatches.Node)
      reads never, other
    {
      n.path != [] && cur.depth == |n.path| && n.path in TrieOf(n.second).shape.at &&
      TrieOf(n.second).shape.at[n.path] == cur.node
    }

    ghost predicate Stand(cs: seq<Cursor>, ns: seq<PartialMatches.Node>)
      reads never, other
    {
      |cs| == |ns| && forall i :: 0 <= i < |ns| ==> IsAt(cs[i], ns[i])
    }

    /** What is stored at a node is the dictionary's rule. */
    lemma TextIsRule(cur: Cursor, n: PartialMatches.Node)
      requires Valid() && IsAt(cur, n)
      ensures RuleAt(BookOf(), n) == NonEmpty(cur.node.adapted)
    {
      hide Trie.Valid;
      var t := TrieOf(n.second);
      t.OnPaths();
      RuleOfPath(t.shape.at, Texts(t), n.path);
    }

    lemma PathsAreNodes(second: bool)
      ensures var t := TrieOf(second);
        forall p :: p != [] ==> (p in t.shape.at <==> p in DictOf(BookOf(), PartialMatches.Node(second, p)).paths)
    {
    }

    /** `tree_get_child` on the node of a cursor. */
    method Follow(cur: Cursor, c: byte, ghost n: PartialMatches.Node) returns (next: Option<Cursor>)
      requires Valid() && IsAt(cur, n)
      ensures next.Some? <==> Child(BookOf(), n, c).Some?
      ensures next.Some? ==> IsAt(next.value, Child(BookOf(), n, c).value)
    {
      hide Trie.Valid, View;
      var r := GetChild(TrieOf(n.second), cur.node, c, n.path);
      TrieOf(n.second).OnPaths();
      PathsAreNodes(n.second);
      next := if r == null then None else Some(Cursor(r, cur.depth + 1));
    }

    /** `tree_get_sibling` from the root of one of the tries. */
    method Begin(first: TrieHeap.Node?<Text>, c: byte, ghost second: bool) returns (cs: seq<Cursor>)
      requires Valid() && first == TrieOf(second).root
      ensures Stand(cs, Here1(BookOf(), [c], second))
    {
      hide Trie.Valid, View;
      ghost var t := TrieOf(second);
      t.OnPaths();
      t.Siblings(null);
      var r := GetSibling(t, first, c, []);
      PathsAreNodes(second);
      assert [] + [Lower(c)] == LowerText([c]);
      cs := if r == null then [] else [Cursor(r, 1)];
    }

    /** New partial matches: never-proxy first, none for bytes up to the space. */
    method Start(c: byte) returns (cs: seq<Cursor>)
      requires Valid()
      ensures Stand(cs, Here(BookOf(), [c]))
    {
      hide Trie.Valid, View, IsAt, LowerText;
      if c <= SPACE {
        return [];
      }
      var a := Begin(never.root, c, false);
      var b := Begin(other.root, c, true);
      cs := a + b;
    }

    /** Every cursor one node further, up to the first that completes a key. */
    method AdvanceAll(cs: seq<Cursor>, c: byte, ghost ns: seq<PartialMatches.Node>)
        returns (next: seq<Cursor>, hit: Option<Cursor>)
      requires Valid() && Stand(cs, ns)
      ensures var all := Advance(BookOf(), ns, c);
        && (hit.None? ==> FirstRule(BookOf(), all).None? && Stand(next, all))
        && (hit.Some? ==> FirstRule(BookOf(), all).Some? && IsAt(hit.value, FirstRule(BookOf(), all).value))
    {
      hide Trie.Valid, View, IsAt, Child, RuleAt, Advance, FirstRule;
      ghost var book := BookOf();
      NothingAdvances(book, c);
      NoRule(book);
      ghost var done: seq<PartialMatches.Node> := [];
      next := [];
      var i := 0;
      while i < |cs|
        invariant i <= |cs| && Stand(next, done)
        invariant Advance(book, ns, c) == done + Advance(book, ns[i..], c)
        invariant FirstRule(book, done).None?
      {
        ghost var child := Child(book, ns[i], c);
        ghost var later := Advance(book, ns[i + 1..], c);
        AdvanceCons(book, ns[i..], c);
        assert ns[i..][1..] == ns[i + 1..];
        var cur := Follow(cs[i], c, ns[i]);
        if cur.Some? {
          TextIsRule(cur.value, child.value);
          FirstRulePush(book, done, child.value, later);
          if cur.value.node.adapted != [] {
            return next, cur;
          }
          next := next + [cur.value];
          done := done + [child.value];
        } else {
          assert [] + later == later;
        }
        i := i + 1;
      }
      assert ns[i..] == [] && done + [] == done;
      return next, None;
    }

    /** One byte of the stream: the matcher's answer, and the partial matches after it. */
    method MatchByte(cs: seq<Cursor>, c: byte, ghost pending: Text)
        returns (r: Result, next: seq<Cursor>)
      requires Valid() && BookOf().WellFormed() && Stand(cs, Suffixes(BookOf(), pending))
      ensures var undecided := Undecided(pending, c, r);
        Decides(BookOf(), pending, c, r, undecided) && Stand(next, Suffixes(BookOf(), undecided))
    {
      hide Trie.Valid, View, IsAt, RuleAt, Advance, Here, FirstRule, Decides;
      ghost var book := BookOf();
      HitDecides(book, pending, c);
      var hit;
      next, hit := AdvanceAll(cs, c, Suffixes(book, pending));
      if hit.Some? {
        TextIsRule(hit.value, FirstRule(book, Advance(book, Suffixes(book, pending), c)).value);
        DepthIs(hit.value, FirstRule(book, Advance(book, Suffixes(book, pending), c)).value);
        return TransformOk(hit.value.node.adapted, hit.value.depth), [];
      }
      var start := Start(c);
      next := next + start;
      r := if next == [] then NotHold else FeedMeAndHold;
    }

    lemma DepthIs(cur: Cursor, n: PartialMatches.Node)
      requires IsAt(cur, n)
      ensures cur.depth == |n.path|
    {
    }
  }

  lemma NoRule(book: Book)
    ensures FirstRule(book, []).None?
  {
  }

  lemma FirstRulePush(book: Book, ns: seq<PartialMatches.Node>, n: PartialMatches.Node, later: seq<PartialMatches.Node>)
    requires FirstRule(book, ns).None?
    ensures ns + ([n] + later) == ns + [n] + later
    ensures if RuleAt(book, n).Some? then FirstRule(book, ns + ([n] + later)) == Some(n)
      else FirstRule(book, ns + [n]).None?
  {
    FirstRuleAppend(book, ns, [n] + later);
    FirstRuleAppend(book, ns, [n]);
  }

  /** Insertions into two tries on the heap, and a stream matched by following their nodes: what
  has left and what is still held is the whole-text rewriting by the inserted rules, and only the
  bytes since nothing began a key are held. */
  method RewriteOnTries(never: seq<FaRules.Insertion>, other: seq<FaRules.Insertion>, t: Text)
      returns (output: Text, holding: Text)
    ensures output + holding == Rewritten(FaProxy.RuleBook(never, other), t)
    ensures Held(FaProxy.RuleBook(never, other), Rewrite(FaProxy.RuleBook(never, other), t).tail, holding)
  {
    hide FaRules.After, Rewritten, Rewrite, Held, Agrees, Decides, Tries.Stand, Trie.Valid, View, Suffixes;
    FaRules.RulesAreWellFormed(never);
    FaRules.RulesAreWellFormed(other);
    var a := FaRules.Build(never);
    var b := FaRules.Build(other);
    var tries := Tries(a, b);
    ghost var book := tries.BookOf();
    assert book == FaProxy.RuleBook(never, other);
    ghost var pending: Text := [];
    var cs: seq<Cursor> := [];
    output, holding := [], [];
    NothingYet(book, tries);
    var i := 0;
    while i < |t|
      invariant i <= |t| && tries.Valid() && tries.BookOf() == book && tries.Stand(cs, Suffixes(book, pending))
      invariant Agrees(book, t[..i], pending, output, holding)
    {
      assert t[..i + 1] == t[..i] + [t[i]];
      var r;
      r, cs := tries.MatchByte(cs, t[i], pending);
      ghost var after := Undecided(pending, t[i], r);
      StepKeeps(book, t[..i], pending, output, holding, t[i], r, after);
      var (emitted, held) := Emit(holding, t[i], r);
      output, holding, pending := output + emitted, held, after;
      i := i + 1;
    }
    assert t[..i] == t;
    AgreesOnText(book, t, pending, output, holding);
  }

  lemma NothingYet(book: Book, tries: Tries)
    ensures Agrees(book, [], [], [], []) && tries.Stand([], Suffixes(book, []))
  {
  }
}
