/** Which key is pending in rena's matcher, when it is replaced, and what is held: for every rule
set and every verdict, in terms of the keys and nodes that the accepted bytes spell. */
module RenaPending {
  import opened Bytes
  import opened Wrappers
  import opened Rules
  import opened PartialMatches
  import opened RenaMatching
  import opened RenaExactness

  /** The longer of two pending keys, the first one on equal length. */
  function Longer(a: Option<Hit>, b: Option<Hit>): Option<Hit> {
    if b.Some? && (a.None? || a.value.consume < b.value.consume) then b else a
  }

  lemma {:induction false} BestIsLonger(book: Book, hit: Option<Hit>, ns: seq<Node>)
    ensures Best(book, hit, ns) == Longer(hit, Best(book, None, ns))
    decreases ns
  {
    if ns != [] {
      var rule := RuleAt(book, ns[0]);
      if rule.Some? {
        var first := Some(Hit(rule.value, |ns[0].path|));
        BestIsLonger(book, hit, ns[1..]);
        BestIsLonger(book, first, ns[1..]);
      } else {
        BestIsLonger(book, hit, ns[1..]);
      }
    }
  }

  /** Some key ends with `q`. */
  predicate EndsKey(book: Book, q: Text) {
    KeyEndsAt(book, q, |q|)
  }

  /** The length of the longest one. */
  function KeyLength(book: Book, q: Text): nat
    requires EndsKey(book, q)
  {
    |q| - KeyStart(book, q)
  }

  /** Of the keys that end in `a` behind position `m`, the one at `e` is the longest, and the
  first of its length. */
  ghost predicate LongestBehind(book: Book, a: Text, m: nat, e: nat) {
    && m < e <= |a| && EndsKey(book, a[..e])
    && (forall i :: m < i < e && EndsKey(book, a[..i]) ==> KeyLength(book, a[..i]) < KeyLength(book, a[..e]))
    && (forall i :: e < i <= |a| && EndsKey(book, a[..i]) ==> KeyLength(book, a[..i]) <= KeyLength(book, a[..e]))
  }

  /** The pending key: that one, with its replacement; none when no key ends there. */
  ghost predicate PendingIs(book: Book, a: Text, m: nat, hit: Option<Hit>) {
    match hit
    case None => forall e :: m < e <= |a| ==> !EndsKey(book, a[..e])
    case Some(h) => exists e: nat :: LongestBehind(book, a, m, e) && IsKeyAt(book, a[..e], h)
  }

  predicate IsKeyAt(book: Book, q: Text, h: Hit) {
    EndsKey(book, q) && h == Hit(book.Replacement(q[KeyStart(book, q)..]), KeyLength(book, q))
  }

  /** How many accepted bytes had been read when the last replacement was made, the byte that
  made it included. */
  ghost function ReplacedAt(book: Book, js: seq<Judged>): nat {
    if js == [] then 0
    else
      var before := js[..|js| - 1];
      if Run(book, js).done != Run(book, before).done then |Accepted(js)| else ReplacedAt(book, before)
  }

  /** Some node beyond the new ones is reached: a partial match has gone on. */
  ghost predicate GoesOn(book: Book, t: Text) {
    exists n :: Reached(book, t, n) && 2 <= |n.path|
  }

  lemma GoesOnIff(book: Book, a: Text, c: byte)
    requires book.WellFormed()
    ensures GoesOn(book, a + [c]) <==> Advance(book, SuffixesUp(book, a), c) != []
  {
    hide SuffixesUp, Advance, Reached, Here;
    var ns := Advance(book, SuffixesUp(book, a), c);
    SuffixesUpStep(book, a, c);
    SuffixesUpExact(book, a + [c]);
    SuffixesUpExact(book, a);
    AtLeastOne(book, a);
    AdvanceDeep(book, SuffixesUp(book, a), c);
    HereIsShallow(book, c);
    if ns != [] {
      assert ns[0] in ns && ns[0] in SuffixesUp(book, a + [c]);
    }
  }

  lemma AtLeastOne(book: Book, a: Text)
    ensures forall n :: Reached(book, a, n) ==> 1 <= |n.path|
  {
  }

  lemma {:induction false} AdvanceDeep(book: Book, ns: seq<Node>, c: byte)
    requires forall n :: n in ns ==> 1 <= |n.path|
    ensures forall n :: n in Advance(book, ns, c) ==> 2 <= |n.path|
  {
    if ns != [] {
      AdvanceDeep(book, ns[1..], c);
    }
  }

  lemma HereIsShallow(book: Book, c: byte)
    ensures forall n :: n in Here(book, [c]) ==> |n.path| == 1
  {
  }

  /** A byte makes a replacement exactly when it is permitted, a key is pending, and no partial
  match goes on; then the pending key is cut off the end. Otherwise everything is let go when
  nothing begins a key any more, and held on when something does. */
  lemma MatcherStep(book: Book, js: seq<Judged>, j: Judged)
    requires book.WellFormed()
    ensures var (s, t) := (Run(book, js), Run(book, js + [j]));
      && t.accepted == Accepted(js + [j]) == Accepted(js) + (if j.permitted then [j.c] else [])
      && if j.permitted && s.hit.Some? && !GoesOn(book, Accepted(js) + [j.c]) then
           var h := s.hit.value;
           && h.consume <= |s.held| <= |s.Tail()| && t.hit == None && t.out == [] && t.held == [j.c]
           && var k := |s.Tail()| - h.consume;
              t.done == s.done + [Piece(s.Tail()[..k], s.Tail()[k..], h.phrase)]
         else
           && t.done == s.done
           && if Silent(book, t.accepted) then t.out == s.Tail() + [j.c] && t.held == []
              else t.out == s.out && t.held == s.held + [j.c]
  {
    hide Run, GoesOn, Silent, State.Tail, Accepted;
    RunFits(book, js);
    AcceptedPush(js, j);
    if j.permitted && Run(book, js).hit.Some? && !GoesOn(book, Accepted(js) + [j.c]) {
      MatcherFires(book, js, j);
    } else {
      MatcherWaits(book, js, j);
    }
  }

  lemma MatcherFires(book: Book, js: seq<Judged>, j: Judged)
    requires book.WellFormed() && j.permitted && Run(book, js).hit.Some? && !GoesOn(book, Accepted(js) + [j.c])
    ensures var (s, t) := (Run(book, js), Run(book, js + [j]));
      var h := s.hit.value;
      && t.accepted == s.accepted + [j.c]
      && h.consume <= |s.held| <= |s.Tail()| && t.hit == None && t.out == [] && t.held == [j.c]
      && var k := |s.Tail()| - h.consume;
         t.done == s.done + [Piece(s.Tail()[..k], s.Tail()[k..], h.phrase)]
  {
    hide Run, Step, Decide, Advance, SuffixesUp, GoesOn, State.Tail, Accepted;
    var s := Run(book, js);
    RunFits(book, js);
    RunLast(book, js, j);
    GoesOnIff(book, s.accepted, j.c);
    DecideIs(book, s, j.c, true);
    StepTail(book, s, j.c, true);
    StepParts(book, s, j.c, true);
  }

  lemma MatcherWaits(book: Book, js: seq<Judged>, j: Judged)
    requires book.WellFormed()
    requires !(j.permitted && Run(book, js).hit.Some? && !GoesOn(book, Accepted(js) + [j.c]))
    ensures var (s, t) := (Run(book, js), Run(book, js + [j]));
      && t.accepted == s.accepted + (if j.permitted then [j.c] else [])
      && t.done == s.done
      && if Silent(book, t.accepted) then t.out == s.Tail() + [j.c] && t.held == []
         else t.out == s.out && t.held == s.held + [j.c]
  {
    hide Run, Step, Decide, Advance, SuffixesUp, GoesOn, Silent, State.Tail, Accepted;
    var s := Run(book, js);
    RunFits(book, js);
    RunLast(book, js, j);
    GoesOnIff(book, s.accepted, j.c);
    SilentIff(book, s.accepted + (if j.permitted then [j.c] else []));
    DecideIs(book, s, j.c, j.permitted);
    StepTail(book, s, j.c, j.permitted);
    StepParts(book, s, j.c, j.permitted);
  }

  lemma RunFits(book: Book, js: seq<Judged>)
    requires book.WellFormed()
    ensures var s := Run(book, js);
      s.accepted == Accepted(js) && (s.hit.Some? ==> s.hit.value.consume <= |s.held| <= |s.Tail()|)
  {
    hide Run, Inv;
    RunConserves(book, js);
    HitFits(book, Run(book, js));
  }

  lemma AcceptedPush(js: seq<Judged>, j: Judged)
    ensures Accepted(js + [j]) == Accepted(js) + (if j.permitted then [j.c] else [])
  {
    assert (js + [j])[..|js|] == js;
  }

  lemma DecideIs(book: Book, s: State, c: byte, permitted: bool)
    ensures var d := Decide(book, s.accepted, s.hit, c, permitted);
      var now := s.accepted + (if permitted then [c] else []);
      && d.accepted == now
      && if permitted && s.hit.Some? && Advance(book, SuffixesUp(book, s.accepted), c) == [] then
           d.answer == TransformationFound(s.hit.value.phrase) && d.cut == s.hit.value.consume && d.hit == None
         else
           d.cut == 0 && d.answer == if SuffixesUp(book, now) == [] then NotHold else FeedMe
  {
    hide Advance, SuffixesUp;
    assert s.accepted + [] == s.accepted;
    BestOfNone(book, s.hit);
  }

  lemma StepParts(book: Book, s: State, c: byte, permitted: bool)
    ensures var (d, t) := (Decide(book, s.accepted, s.hit, c, permitted), Step(book, s, c, permitted));
      && (d.answer.NotHold? ==> t.out == s.Tail() + [c] && t.held == [])
      && (d.answer.FeedMe? ==> t.out == s.out && t.held == s.held + [c])
      && (d.answer.TransformationFound? && d.cut <= |s.held| ==> t.out == [] && t.held == [c])
  {
    hide Decide;
    assert s.out + (s.held + [c]) == s.out + s.held + [c];
  }

  lemma HitFits(book: Book, s: State)
    requires Inv(book, s)
    ensures s.hit.Some? ==> s.hit.value.consume <= |s.held| <= |s.Tail()|
  {
  }

  lemma RunLast(book: Book, js: seq<Judged>, j: Judged)
    ensures Run(book, js + [j]) == Step(book, Run(book, js), j.c, j.permitted)
  {
    assert (js + [j])[..|js|] == js;
  }

  /** The pending key after a byte. */
  lemma HitStep(book: Book, js: seq<Judged>, j: Judged)
    requires book.WellFormed()
    ensures var (s, t, a) := (Run(book, js), Run(book, js + [j]), Accepted(js + [j]));
      && (t.done == s.done && j.permitted ==> t.hit == Longer(s.hit, HitOf(book, a)))
      && (t.done == s.done && !j.permitted ==> t.hit == s.hit)
      && (t.done != s.done ==> t.hit == None)
  {
    hide Run, Advance, SuffixesUp, Inv, HitOf;
    var s := Run(book, js);
    RunConserves(book, js);
    assert (js + [j])[..|js|] == js;
    RunLast(book, js, j);
    DecideKeeps(book, s, j.c, j.permitted);
    StepTail(book, s, j.c, j.permitted);
    HitFits(book, s);
    BestIsLonger(book, s.hit, Advance(book, SuffixesUp(book, s.accepted), j.c));
    BestIsLongest(book, s.accepted, j.c);
  }

  lemma PendingPush(book: Book, a: Text, c: byte, m: nat, hit: Option<Hit>)
    requires m <= |a| && PendingIs(book, a, m, hit)
    ensures PendingIs(book, a + [c], m, Longer(hit, HitOf(book, a + [c])))
  {
    hide KeyEndsAt, KeyStart, EndsKey, IsKeyAt, KeyLength;
    var b := a + [c];
    assert b[..|b|] == b;
    assert forall i :: 0 <= i <= |a| ==> b[..i] == a[..i];
    HitOfIs(book, b);
    if hit.Some? {
      var e: nat :| LongestBehind(book, a, m, e) && IsKeyAt(book, a[..e], hit.value);
      KeyAtLength(book, a[..e], hit.value);
      if HitOf(book, b).Some? && hit.value.consume < HitOf(book, b).value.consume {
        assert LongestBehind(book, b, m, |b|) && IsKeyAt(book, b[..|b|], HitOf(book, b).value);
      } else {
        assert LongestBehind(book, b, m, e) && IsKeyAt(book, b[..e], hit.value);
      }
    } else if HitOf(book, b).Some? {
      assert LongestBehind(book, b, m, |b|) && IsKeyAt(book, b[..|b|], HitOf(book, b).value);
    }
  }

  lemma HitOfIs(book: Book, q: Text)
    ensures HitOf(book, q).Some? <==> EndsKey(book, q)
    ensures HitOf(book, q).Some? ==>
      IsKeyAt(book, q, HitOf(book, q).value) && HitOf(book, q).value.consume == KeyLength(book, q)
  {
  }

  lemma KeyAtLength(book: Book, q: Text, h: Hit)
    requires IsKeyAt(book, q, h)
    ensures EndsKey(book, q) && h.consume == KeyLength(book, q)
  {
  }

  lemma {:induction false} ReplacedWithin(book: Book, js: seq<Judged>)
    ensures ReplacedAt(book, js) <= |Accepted(js)|
  {
    hide Run;
    if js != [] {
      ReplacedWithin(book, js[..|js| - 1]);
    }
  }

  /** For every rule set, stream and verdict: pending is the longest of the keys that have ended
  since the last replacement, the first of its length, with its replacement. */
  lemma {:induction false} PendingIsLongest(book: Book, js: seq<Judged>)
    requires book.WellFormed()
    ensures PendingIs(book, Accepted(js), ReplacedAt(book, js), Run(book, js).hit)
  {
    hide Run, PendingIs, EndsKey;
    if js == [] {
      NothingPending(book);
    } else {
      var before, j := js[..|js| - 1], js[|js| - 1];
      assert js == before + [j];
      PendingIsLongest(book, before);
      ReplacedWithin(book, before);
      HitStep(book, before, j);
      MatcherStep(book, before, j);
      var a := Accepted(js);
      if Run(book, js).done != Run(book, before).done {
        NoneBehind(book, a);
      } else if j.permitted {
        PendingPush(book, Accepted(before), j.c, ReplacedAt(book, before), Run(book, before).hit);
      } else {
        assert a == Accepted(before);
      }
    }
  }

  lemma NothingPending(book: Book)
    ensures PendingIs(book, Accepted([]), ReplacedAt(book, []), Run(book, []).hit)
  {
  }

  lemma NoneBehind(book: Book, a: Text)
    ensures PendingIs(book, a, |a|, None)
  {
  }
}
