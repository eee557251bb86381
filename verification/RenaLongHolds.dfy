/** Which rule sets let a stream append more at once than the growth of the client's buffer
provides for: all but the empty ones. */
module RenaLongHolds {
  import opened Bytes
  import opened Wrappers
  import opened Rules
  import opened Sequences
  import opened PartialMatches
  import opened RenaMatching
  import opened RenaExactness
  import opened HttpBuffer
  import opened RenaPull
  import opened RenaRules
  import opened RenaProxy

  /** Some key begins with the byte. */
  predicate Begins(book: Book, c: byte) {
    book.first.HasNode([c]) || book.second.HasNode([c])
  }

  /** There is nothing to match. */
  ghost predicate Idle(book: Book) {
    forall c: byte :: !Begins(book, c)
  }

  lemma BeginsWith(book: Book, p: Text)
    requires book.WellFormed() && p != [] && !Begins(book, p[0])
    ensures Here(book, p) == []
  {
    var k := LowerText(p);
    assert k[..1] == LowerText([p[0]]);
    if k in book.first.paths {
      PrefixIsNode(book.first, k, 1);
    }
    if k in book.second.paths {
      PrefixIsNode(book.second, k, 1);
    }
  }

  /** An empty rule set is one without nodes. */
  lemma IdleIffEmpty(book: Book)
    requires book.WellFormed() && [] !in book.first.paths && [] !in book.second.paths
    requires forall p :: p in book.first.paths || p in book.second.paths ==> IsLowerText(p)
    ensures Idle(book) <==> book.first.paths == {} && book.second.paths == {}
  {
    forall p | p in book.first.paths || p in book.second.paths
      ensures p != [] && Begins(book, p[0])
    {
      LowerIsSelf(p);
      assert LowerText(p)[..1] == LowerText([p[0]]);
      PrefixIsNode(if p in book.first.paths then book.first else book.second, p, 1);
    }
  }

  // ----- without rules

  lemma {:induction false} IdleUp(book: Book, p: Text)
    requires book.WellFormed() && Idle(book)
    ensures SuffixesUp(book, p) == []
    decreases |p|
  {
    hide Begins, Here;
    if p != [] {
      IdleUp(book, p[1..]);
      BeginsWith(book, p);
    }
  }

  /** Every byte leaves alone, whatever the verdicts. */
  lemma {:induction false} IdleAppends(book: Book, js: seq<Judged>)
    requires book.WellFormed() && Idle(book)
    ensures Appends(book, js) == Ones(|js|) && Run(book, js).held == [] && Run(book, js).hit == None
  {
    hide Idle, SuffixesUp, Best;
    if js != [] {
      var before, last := js[..|js| - 1], js[|js| - 1];
      IdleAppends(book, before);
      IdleUp(book, Run(book, before).accepted);
      IdleUp(book, Run(book, before).accepted + [last.c]);
      BestOfNone(book, None);
      OnesPush(|before|);
    }
  }

  // ----- with rules

  /** Bytes `x` that begin no key, then bytes `c`. */
  function Tailed(x: byte, m: nat, c: byte, n: nat): Text {
    Repeat(x, m) + Repeat(c, n)
  }

  lemma TailedPush(x: byte, m: nat, c: byte, n: nat)
    ensures Tailed(x, m + 1, c, 0) == Tailed(x, m, c, 0) + [x]
    ensures Tailed(x, m, c, n + 1) == Tailed(x, m, c, n) + [c]
  {
  }

  lemma NotSpelled(book: Book, p: Text, node: Node)
    requires book.WellFormed() && p != [] && !Begins(book, p[0])
    ensures !SpellsNode(book, p, node)
  {
    assert LowerText(p)[..1] == LowerText([p[0]]);
    if node.path == LowerText(p) && node.path in DictOf(book, node).paths {
      PrefixIsNode(DictOf(book, node), node.path, 1);
    }
  }

  /** A partial match on a text of `x`s and `c`s has read `c`s only. */
  lemma ReachedInTail(book: Book, x: byte, m: nat, c: byte, n: nat, node: Node)
    requires book.WellFormed() && (m == 0 || !Begins(book, x)) && Reached(book, Tailed(x, m, c, n), node)
    ensures 1 <= |node.path| <= n && node.path == LowerText(Repeat(c, |node.path|))
  {
    hide SpellsNode, Begins, Tailed, LowerText;
    var t := Tailed(x, m, c, n);
    var k :| 0 <= k < |t| && SpellsNode(book, t[k..], node);
    TailedFrom(x, m, c, n, k);
    SpelledPath(book, t[k..], node);
    if k < m {
      NotSpelled(book, t[k..], node);
    }
  }

  lemma TailedFrom(x: byte, m: nat, c: byte, n: nat, k: nat)
    requires k < |Tailed(x, m, c, n)|
    ensures |Tailed(x, m, c, n)| == m + n
    ensures if k < m then Tailed(x, m, c, n)[k..][0] == x else Tailed(x, m, c, n)[k..] == Repeat(c, m + n - k)
  {
  }

  lemma SpelledPath(book: Book, p: Text, node: Node)
    requires SpellsNode(book, p, node)
    ensures |node.path| == |p| && p != [] && node.path == LowerText(p)
  {
  }

  lemma NothingUp(book: Book, x: byte, m: nat, c: byte)
    requires book.WellFormed() && !Begins(book, x)
    ensures SuffixesUp(book, Tailed(x, m, c, 0)) == []
  {
    hide SuffixesUp, Reached, Tailed;
    var ns := SuffixesUp(book, Tailed(x, m, c, 0));
    SuffixesUpExact(book, Tailed(x, m, c, 0));
    if ns != [] {
      assert ns[0] in ns;
      ReachedInTail(book, x, m, c, 0, ns[0]);
    }
  }

  /** A byte that begins no key leaves at once when nothing is held. */
  lemma OnX(book: Book, x: byte, m: nat, c: byte)
    requires book.WellFormed() && !Begins(book, x)
    ensures var t := Tailed(x, m, c, 0);
      Decide(book, t, None, x, true) == Decision(t + [x], None, NotHold, 0)
  {
    hide SuffixesUp, Best, Tailed;
    NothingUp(book, x, m, c);
    NothingUp(book, x, m + 1, c);
    TailedPush(x, m, c, 0);
    BestOfNone(book, None);
  }

  /** Two `c`s begin a key. */
  predicate BeginsTwice(book: Book, c: byte) {
    book.first.HasNode([c, c]) || book.second.HasNode([c, c])
  }

  /** Without such a key no partial match reads a second `c`; with one, some always does. */
  lemma AdvanceOnC(book: Book, x: byte, m: nat, c: byte, n: nat)
    requires RenaBook(book) && (m == 0 || !Begins(book, x))
    ensures var ns := Advance(book, SuffixesUp(book, Tailed(x, m, c, n)), c);
      ns != [] <==> BeginsTwice(book, c) && 0 < n
  {
    hide SuffixesUp, Advance, Tailed;
    var t := Tailed(x, m, c, n);
    SuffixesUpExact(book, t);
    if Advance(book, SuffixesUp(book, t), c) != [] {
      AdvanceWitness(book, SuffixesUp(book, t), c);
      var node :| node in SuffixesUp(book, t) && Child(book, node, c).Some?;
      ReachedInTail(book, x, m, c, n, node);
      SecondC(book, c, node);
    }
    if BeginsTwice(book, c) && 0 < n {
      var node := Node(!book.first.HasNode([c, c]), LowerText([c]));
      OneC(book, x, m, c, n, node);
      AdvanceMember(book, SuffixesUp(book, t), node, c);
    }
  }

  lemma SecondC(book: Book, c: byte, node: Node)
    requires book.WellFormed() && node.path != [] && Child(book, node, c).Some?
    requires node.path == LowerText(Repeat(c, |node.path|))
    ensures BeginsTwice(book, c)
  {
    var p := node.path + [Lower(c)];
    PrefixIsNode(DictOf(book, node), p, 2);
    assert p[..2] == LowerText([c, c]);
  }

  lemma OneC(book: Book, x: byte, m: nat, c: byte, n: nat, node: Node)
    requires RenaBook(book) && 0 < n && node.path == LowerText([c])
    requires LowerText([c, c]) in DictOf(book, node).paths
    ensures Reached(book, Tailed(x, m, c, n), node) && Child(book, node, c).Some?
  {
    var t := Tailed(x, m, c, n);
    assert t[|t| - 1..] == [c];
    assert LowerText([c, c])[..1] == LowerText([c]) && LowerText([c]) + [Lower(c)] == LowerText([c, c]);
    assert SpellsNode(book, t[|t| - 1..], node);
  }

  /** A byte that begins a key is held when nothing but itself came before it, and `x`s. */
  lemma OnC(book: Book, x: byte, m: nat, c: byte, n: nat, hit: Option<Hit>)
    requires RenaBook(book) && (m == 0 || !Begins(book, x)) && Begins(book, c)
    requires hit.Some? ==> BeginsTwice(book, c) && 0 < n
    ensures var t := Tailed(x, m, c, n);
      var d := Decide(book, t, hit, c, true);
      && d == Decision(t + [c], d.hit, FeedMe, 0)
      && (d.hit.Some? ==> BeginsTwice(book, c) && 0 < n)
  {
    hide SuffixesUp, Advance, Best, Tailed, BeginsTwice;
    var t := Tailed(x, m, c, n);
    AdvanceOnC(book, x, m, c, n);
    SuffixesUpStep(book, t, c);
    BestOfNone(book, hit);
  }

  /** All `x`s have left, each alone; all `c`s are held. */
  ghost predicate Holding(book: Book, x: byte, m: nat, c: byte, n: nat) {
    var js := Permitted(Tailed(x, m, c, n));
    var s := Run(book, js);
    && s.accepted == Tailed(x, m, c, n) && s.out == Repeat(x, m) && s.held == Repeat(c, n) && s.done == []
    && (s.hit.Some? ==> BeginsTwice(book, c) && 0 < n)
    && Appends(book, js) == Ones(m)
  }

  lemma OneMoreX(book: Book, x: byte, m: nat, c: byte)
    requires RenaBook(book) && !Begins(book, x) && Holding(book, x, m, c, 0)
    ensures Holding(book, x, m + 1, c, 0)
  {
    hide Decide, Run, Appends, Tailed, RenaBook, Begins, BeginsTwice;
    var t := Tailed(x, m, c, 0);
    RenaIsWellFormed(book);
    TailedPush(x, m, c, 0);
    PermittedPush(t, x);
    RunAppend(book, Permitted(t), Judged(x, true));
    OnX(book, x, m, c);
    OnesPush(m);
    assert Repeat(x, m + 1) == Repeat(x, m) + [x];
  }

  lemma OneMoreC(book: Book, x: byte, m: nat, c: byte, n: nat)
    requires RenaBook(book) && (m == 0 || !Begins(book, x)) && Begins(book, c) && Holding(book, x, m, c, n)
    ensures Holding(book, x, m, c, n + 1)
  {
    hide Decide, Run, Appends, Tailed, RenaBook, Begins, BeginsTwice;
    var t := Tailed(x, m, c, n);
    TailedPush(x, m, c, n);
    PermittedPush(t, c);
    RunAppend(book, Permitted(t), Judged(c, true));
    OnC(book, x, m, c, n, Run(book, Permitted(t)).hit);
    assert Repeat(c, n + 1) == Repeat(c, n) + [c];
  }

  lemma {:induction false} HeldGrows(book: Book, x: byte, m: nat, c: byte, n: nat)
    requires RenaBook(book) && (m == 0 || !Begins(book, x)) && Begins(book, c)
    ensures Holding(book, x, m, c, n)
  {
    hide Holding, RenaBook, Begins;
    if n > 0 {
      HeldGrows(book, x, m, c, n - 1);
      OneMoreC(book, x, m, c, n - 1);
    } else if m > 0 {
      HeldGrows(book, x, m - 1, c, 0);
      OneMoreX(book, x, m - 1, c);
    } else {
      HeldNothing(book, x, c);
    }
  }

  lemma HeldNothing(book: Book, x: byte, c: byte)
    ensures Holding(book, x, 0, c, 0)
  {
    assert Permitted(Tailed(x, 0, c, 0)) == [];
  }

  /** A byte that begins a key, repeated: everything is held, however long the stream is. */
  lemma AllHeld(book: Book, c: byte, n: nat)
    requires RenaBook(book) && Begins(book, c)
    ensures Run(book, Permitted(Repeat(c, n))).held == Repeat(c, n)
  {
    HeldGrows(book, c, 0, c, n);
    assert Tailed(c, 0, c, n) == Repeat(c, n);
  }

  /** Held bytes by the thousand, released at the end behind enough single ones, are written
  behind the block. */
  lemma LongHoldOverruns(book: Book, x: byte, c: byte, n: nat) returns (t: Text)
    requires RenaBook(book) && !Begins(book, x) && Begins(book, c)
    requires 2 * STRUCT_SIZE + 1 < n
    ensures n <= |t| && StreamAppends(book, Permitted(t)) == Ones(|t| - n) + [n]
    ensures var f := Appended(StreamAppends(book, Permitted(t))); Capacity(f.totalBlock) < f.used
  {
    hide Run, Appends, AllFit, Appended, Ones, RenaBook, Begins, Tailed, Grown;
    var m := MAX_STR + 2 * STRUCT_SIZE * n - 1;
    t := Tailed(x, m, c, n);
    HeldGrows(book, x, m, c, n);
    OnesFillBlock(n);
    var f := Appended(Ones(m));
    GrownByTwo(f.totalBlock, f.used, n);
    AllFitPush(Ones(m), n);
    TailedSize(x, m, c, n);
  }

  lemma TailedSize(x: byte, m: nat, c: byte, n: nat)
    ensures |Tailed(x, m, c, n)| == m + n
  {
  }

  /** Where some byte begins no key, every stream's appends fit exactly when there are no
  rules: then whatever the verdicts of a context. */
  lemma StreamsFitIffIdle(book: Book, x: byte)
    requires RenaBook(book) && !Begins(book, x)
    ensures (forall t: Text :: AllFit(StreamAppends(book, Permitted(t)))) <==> Idle(book)
    ensures (forall js: seq<Judged> :: AllFit(StreamAppends(book, js))) <==> Idle(book)
  {
    hide Begins, RenaBook, AllFit, Appended, Run, Appends;
    if Idle(book) {
      forall js: seq<Judged>
        ensures AllFit(StreamAppends(book, js))
      {
        RenaIsWellFormed(book);
        IdleAppends(book, js);
        SmallAppendsFit(Ones(|js|) + [0]);
      }
    } else {
      var c: byte :| Begins(book, c);
      var t := LongHoldOverruns(book, x, c, 2 * STRUCT_SIZE + 2);
      NotAllFit(StreamAppends(book, Permitted(t)));
    }
  }

  /** The same of inserted rules: they are found again or not, only an empty pair of tries is safe. */
  lemma InsertedStreamsFitIff(side: seq<Insertion>, never: seq<Insertion>, x: byte)
    requires !Begins(RuleBook(side, never), x)
    ensures (forall t: Text :: AllFit(StreamAppends(RuleBook(side, never), Permitted(t)))) <==>
      RuleBook(side, never).first.paths == {} && RuleBook(side, never).second.paths == {}
  {
    hide After, AllFit, StreamAppends, Begins;
    RulesAreWellFormed(side);
    RulesAreWellFormed(never);
    RuleBookIsRena(side, never);
    IdleIffEmpty(RuleBook(side, never));
    StreamsFitIffIdle(RuleBook(side, never), x);
  }

  lemma NotAllFit(lengths: seq<nat>)
    requires Capacity(Appended(lengths).totalBlock) < Appended(lengths).used
    ensures !AllFit(lengths)
  {
    assert lengths[..|lengths|] == lengths;
  }
}
