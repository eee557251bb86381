/** What a context that stops the matcher now and then does to the bytes that are cut: when
they spell the key whose replacement takes their place. */
module RenaGated {
  import opened Bytes
  import opened Wrappers
  import opened Rules
  import opened PartialMatches
  import opened RenaMatching
  import opened RenaExactness

  /** The two machines agree about the bytes read and the key that is pending. */
  predicate Alike(s: State, u: State) {
    s.accepted == u.accepted && s.hit == u.hit
  }

  /** The matcher follows the accepted bytes as if there were no others. */
  lemma {:induction false} MatcherIgnoresRest(book: Book, js: seq<Judged>)
    ensures Alike(Run(book, js), Run(book, Permitted(Accepted(js))))
  {
    hide Step, Alike;
    if js == [] {
      assert Accepted(js) == [] && Permitted([]) == [];
      SameIsAlike(Run(book, js));
    } else {
      var before, last := js[..|js| - 1], js[|js| - 1];
      MatcherIgnoresRest(book, before);
      SameMatcher(book, Run(book, before), Run(book, Permitted(Accepted(before))), last.c, last.permitted);
      if last.permitted {
        assert Accepted(js) == Accepted(before) + [last.c];
        RunPush(book, Accepted(before), last.c);
      } else {
        assert Accepted(js) == Accepted(before);
      }
    }
  }

  lemma SameIsAlike(s: State)
    ensures Alike(s, s)
  {
  }

  lemma SameMatcher(book: Book, s: State, u: State, c: byte, permitted: bool)
    requires Alike(s, u)
    ensures Alike(Step(book, s, c, permitted), if permitted then Step(book, u, c, true) else u)
  {
    hide Best, Advance, SuffixesUp;
  }

  function Last(t: Text, k: nat): Text
    requires k <= |t|
  {
    t[|t| - k..]
  }

  /** The pending key ends `a`. */
  predicate EndsWith(book: Book, a: Text, h: Hit) {
    h.consume <= |a| && book.Fires(Last(a, h.consume)) && h.phrase == book.Replacement(Last(a, h.consume))
  }

  lemma HitOfEnds(book: Book, a: Text, q: Text)
    requires IsSuffix(q, a)
    ensures HitOf(book, q).Some? ==> EndsWith(book, a, HitOf(book, q).value)
  {
    hide Book.Fires, Book.Replacement, KeyEndsAt, KeyStart;
    if KeyEndsAt(book, q, |q|) {
      var k := KeyStart(book, q);
      assert Last(a, |q| - k) == q[k..];
    }
  }

  lemma TailIsSuffix(book: Book, a: Text)
    requires book.WellFormed()
    ensures IsSuffix(Run(book, Permitted(a)).Tail(), a)
  {
    hide Run, State.Tail;
    RunConserves(book, Permitted(a));
    RawOfPermitted(a);
  }

  lemma FollowsHit(book: Book, u: Text, c: byte)
    requires Follows(book, u, c)
    ensures var s := Run(book, Permitted(u + [c])); s.hit == HitOf(book, s.Tail())
  {
    hide Run, Rewrite, HitOf, SuffixesUp, Inv;
  }

  /** On a safe rule set a pending key ends the accepted bytes. */
  lemma HitIsKey(book: Book, js: seq<Judged>)
    requires RenaBook(book) && Safe(book) && Run(book, js).hit.Some?
    ensures EndsWith(book, Accepted(js), Run(book, js).hit.value)
  {
    hide Run, RenaBook, Safe, Follows, IsSuffix, EndsWith, HitOf, State.Tail;
    var a := Accepted(js);
    MatcherIgnoresRest(book, js);
    if a == [] {
      NothingPending(book);
    } else {
      var u, c := a[..|a| - 1], a[|a| - 1];
      assert u + [c] == a;
      SafeFollows(book, u, c);
      FollowsHit(book, u, c);
      RenaIsWellFormed(book);
      TailIsSuffix(book, a);
      HitOfEnds(book, a, Run(book, Permitted(a)).Tail());
    }
  }

  lemma NothingPending(book: Book)
    ensures Run(book, Permitted([])).hit == None
  {
  }

  /** The last `k` bytes have all been permitted. */
  predicate Unbroken(js: seq<Judged>, k: nat)
    requires k <= |js|
  {
    forall i :: |js| - k <= i < |js| ==> js[i].permitted
  }

  lemma {:induction false} UnbrokenIsAccepted(js: seq<Judged>, k: nat)
    requires k <= |js| && Unbroken(js, k)
    ensures k <= |Accepted(js)| && |Raw(js)| == |js| && Last(Accepted(js), k) == Last(Raw(js), k)
    decreases |js|
  {
    if js != [] {
      var n := |js| - 1;
      UnbrokenIsAccepted(js[..n], if k == 0 then 0 else k - 1);
    }
  }

  /** Wherever a key ends the accepted bytes, nothing rejected came in between. */
  ghost predicate KeysUnbroken(book: Book, js: seq<Judged>) {
    forall n, k :: 0 <= n <= |js| && 0 <= k <= |Accepted(js[..n])| && book.Fires(Last(Accepted(js[..n]), k)) ==>
      k <= n && Unbroken(js[..n], k)
  }

  /** The piece is a key and its replacement. */
  predicate Spelled(book: Book, p: Piece) {
    book.Fires(p.cut) && p.put == book.Replacement(p.cut)
  }

  predicate AllSpelled(book: Book, ps: seq<Piece>) {
    forall i :: 0 <= i < |ps| ==> Spelled(book, ps[i])
  }

  lemma UnbrokenNow(book: Book, js: seq<Judged>, k: nat)
    requires KeysUnbroken(book, js) && k <= |Accepted(js)| && book.Fires(Last(Accepted(js), k))
    ensures k <= |js| && Unbroken(js, k)
  {
    hide Book.Fires, Unbroken;
    assert js[..|js|] == js;
    assert book.Fires(Last(Accepted(js[..|js|]), k));
  }

  /** An unbroken pending key ends the bytes that have not been replaced. */
  lemma HitIsWhole(book: Book, js: seq<Judged>)
    requires RenaBook(book) && Safe(book) && KeysUnbroken(book, js) && Run(book, js).hit.Some?
    ensures var (s, h) := (Run(book, js), Run(book, js).hit.value);
      && EndsWith(book, s.accepted, h)
      && (h.consume <= |s.Tail()| ==> Last(s.Tail(), h.consume) == Last(s.accepted, h.consume))
  {
    hide Run, RenaBook, Safe, Inv, Book.Fires, Book.Replacement, State.Tail, KeysUnbroken, Unbroken;
    var h := Run(book, js).hit.value;
    RenaIsWellFormed(book);
    HitIsKey(book, js);
    UnbrokenNow(book, js, h.consume);
    UnbrokenIsAccepted(js, h.consume);
    RunConserves(book, js);
    TailIsRaw(book, js, h.consume);
  }

  lemma TailIsRaw(book: Book, js: seq<Judged>, k: nat)
    requires book.WellFormed()
    ensures k <= |Run(book, js).Tail()| ==>
      k <= |Raw(js)| && Last(Run(book, js).Tail(), k) == Last(Raw(js), k)
  {
    hide Run, State.Tail, Inv;
    RunConserves(book, js);
    var s := Run(book, js);
    if k <= |s.Tail()| {
      EndOf(Source(s.done), s.Tail(), k);
    }
  }

  lemma StepSpells(book: Book, js: seq<Judged>, c: byte, permitted: bool)
    requires RenaBook(book) && Safe(book) && KeysUnbroken(book, js)
    requires AllSpelled(book, Run(book, js).done)
    ensures AllSpelled(book, Step(book, Run(book, js), c, permitted).done)
  {
    hide Run, RenaBook, Safe, Step, Decide, Inv, Book.Fires, Book.Replacement, KeysUnbroken;
    RenaIsWellFormed(book);
    RunConserves(book, js);
    var s := Run(book, js);
    CutIsHeld(book, s, c, permitted);
    StepTail(book, s, c, permitted);
    var d := Decide(book, s.accepted, s.hit, c, permitted);
    if d.answer.TransformationFound? {
      FoundIsPending(book, s, c, permitted);
      HitIsWhole(book, js);
    }
  }

  lemma CutIsHeld(book: Book, s: State, c: byte, permitted: bool)
    requires book.WellFormed() && Inv(book, s)
    ensures var d := Decide(book, s.accepted, s.hit, c, permitted);
      d.answer.TransformationFound? ==> d.cut <= |s.held| <= |s.Tail()|
  {
    hide Decide, SuffixesUp, IsKey;
    DecideKeeps(book, s, c, permitted);
  }

  lemma FoundIsPending(book: Book, s: State, c: byte, permitted: bool)
    requires Decide(book, s.accepted, s.hit, c, permitted).answer.TransformationFound?
    ensures var d := Decide(book, s.accepted, s.hit, c, permitted); s.hit == Some(Hit(d.answer.phrase, d.cut))
  {
    hide SuffixesUp, Advance;
    BestOfNone(book, s.hit);
  }

  lemma EndOf(s: Text, t: Text, k: nat)
    requires k <= |t|
    ensures Last(s + t, k) == t[|t| - k..]
  {
  }

  lemma KeysUnbrokenBefore(book: Book, js: seq<Judged>, n: nat)
    requires n <= |js| && KeysUnbroken(book, js)
    ensures KeysUnbroken(book, js[..n])
  {
    hide Book.Fires, Unbroken;
    assert forall i :: 0 <= i <= n ==> js[..n][..i] == js[..i];
  }

  /** On a safe rule set every cut spells the key whose replacement it gets, whenever the
  context lets keys through in one piece only. */
  lemma {:induction false} CutsSpellKeys(book: Book, js: seq<Judged>)
    requires RenaBook(book) && Safe(book) && KeysUnbroken(book, js)
    ensures AllSpelled(book, Run(book, js).done)
  {
    hide RenaBook, Safe, Step, Spelled, KeysUnbroken;
    if js != [] {
      var n := |js| - 1;
      KeysUnbrokenBefore(book, js, n);
      CutsSpellKeys(book, js[..n]);
      StepSpells(book, js[..n], js[n].c, js[n].permitted);
    }
  }

  // ----- the bytes that are cut, and those that were matched

  /** If the next byte makes a replacement, the bytes cut are the last that were matched. */
  ghost predicate CutMatches(book: Book, s: State, c: byte, permitted: bool) {
    var d := Decide(book, s.accepted, s.hit, c, permitted);
    d.answer.TransformationFound? ==>
      d.cut <= |s.Tail()| && d.cut <= |s.accepted| && Last(s.Tail(), d.cut) == Last(s.accepted, d.cut)
  }

  ghost predicate CutsMatch(book: Book, js: seq<Judged>) {
    forall n :: 0 <= n < |js| ==> CutMatches(book, Run(book, js[..n]), js[n].c, js[n].permitted)
  }

  lemma UnbrokenCutMatches(book: Book, js: seq<Judged>, c: byte, permitted: bool)
    requires RenaBook(book) && Safe(book) && KeysUnbroken(book, js)
    ensures CutMatches(book, Run(book, js), c, permitted)
  {
    hide Run, RenaBook, Safe, Decide, Inv, Book.Fires, Book.Replacement, KeysUnbroken, State.Tail;
    RenaIsWellFormed(book);
    RunConserves(book, js);
    var s := Run(book, js);
    CutIsHeld(book, s, c, permitted);
    if Decide(book, s.accepted, s.hit, c, permitted).answer.TransformationFound? {
      FoundIsPending(book, s, c, permitted);
      HitIsWhole(book, js);
    }
  }

  lemma UnbrokenCutsMatch(book: Book, js: seq<Judged>)
    requires RenaBook(book) && Safe(book) && KeysUnbroken(book, js)
    ensures CutsMatch(book, js)
  {
    hide Run, RenaBook, Safe, KeysUnbroken, CutMatches;
    forall n | 0 <= n < |js|
      ensures CutMatches(book, Run(book, js[..n]), js[n].c, js[n].permitted)
    {
      KeysUnbrokenBefore(book, js, n);
      UnbrokenCutMatches(book, js[..n], js[n].c, js[n].permitted);
    }
  }

  /** On a safe rule set no key ends where another one, or the same, is inside. */
  lemma NoEndInside(book: Book, q: Text, w: Text, i: nat)
    requires RenaBook(book) && Safe(book) && book.Fires(w) && 0 < i < |w| && IsSuffix(w[..i], q)
    ensures !KeyEndsAt(book, q, |q|)
  {
    hide KeyEndsAt, Clash, Reached;
    var k := LowerText(w);
    var n := Node(!book.first.HasKey(w), LowerText(w[..i]));
    assert k[..i] == n.path && k[..i + 1] == n.path + [Lower(w[i])];
    PrefixIsNode(DictOf(book, n), k, i);
    PrefixIsNode(DictOf(book, n), k, i + 1);
    assert SpellsNode(book, q[|q| - i..], n);
    SpelledIsReached(book, q, |q| - i, n);
    if KeyEndsAt(book, q, |q|) {
      LiveNodeClashes(book, q, n, w[i]);
    }
  }

  lemma SpelledIsReached(book: Book, q: Text, k: nat, n: Node)
    requires k < |q| && SpellsNode(book, q[k..], n)
    ensures Reached(book, q, n)
  {
  }

  /** While a key is being read, all of it read so far is in the specification's tail. */
  lemma {:induction false} KeyIsInTail(book: Book, a: Text, w: Text, i: nat)
    requires RenaBook(book) && Safe(book) && book.Fires(w) && i < |w|
    ensures IsSuffix(w[..i], Rewrite(book, a + w[..i]).tail)
    decreases i
  {
    hide RenaBook, Safe, Book.Fires, KeyEndsAt, KeyStart, Rewrite;
    if i > 0 {
      KeyIsInTail(book, a, w, i - 1);
      var u, c := a + w[..i - 1], w[i - 1];
      assert a + w[..i] == u + [c];
      RewriteExtends(book, u, c);
      var q := Rewrite(book, u).tail + [c];
      SuffixPush(w[..i - 1], Rewrite(book, u).tail, c);
      assert w[..i] == w[..i - 1] + [c];
      NoEndInside(book, q, w, i);
    }
  }

  lemma SuffixPush(a: Text, b: Text, c: byte)
    requires IsSuffix(a, b)
    ensures IsSuffix(a + [c], b + [c])
  {
  }

  /** Once a key has been read, it or a longer one is pending, and no partial match goes on. */
  lemma KeyIsPending(book: Book, a: Text, w: Text)
    requires RenaBook(book) && Safe(book) && book.Fires(w)
    ensures var s := Run(book, Permitted(a + w));
      && s.hit.Some? && |w| <= s.hit.value.consume
      && (forall c :: Advance(book, SuffixesUp(book, s.accepted), c) == [])
  {
    hide RenaBook, Safe, Run, Rewrite, SuffixesUp, Advance, Inv, KeyEndsAt, KeyStart;
    var u, c := a + w[..|w| - 1], w[|w| - 1];
    assert a + w == u + [c];
    KeyIsInTail(book, a, w, |w| - 1);
    SafeFollows(book, u, c);
    var q := Rewrite(book, u).tail + [c];
    SuffixPush(w[..|w| - 1], Rewrite(book, u).tail, c);
    assert w == w[..|w| - 1] + [c];
    EndsByKey(book, q, w);
    forall c
      ensures Advance(book, SuffixesUp(book, q), c) == []
    {
      SafeDies(book, q, c);
    }
  }

  lemma EndsByKey(book: Book, q: Text, w: Text)
    requires book.Fires(w) && IsSuffix(w, q)
    ensures KeyEndsAt(book, q, |q|) && KeyStart(book, q) <= |q| - |w|
  {
    hide Book.Fires;
    assert q[|q| - |w|..|q|] == w && q[|q| - |w|..] == w;
    assert |w| != 0 by { FiresSize(book, w); }
  }

  lemma FiresSize(book: Book, w: Text)
    requires book.Fires(w)
    ensures 2 <= |w|
  {
  }

  /** The next permitted byte makes the replacement, whatever was rejected in between. */
  lemma KeyFires(book: Book, js: seq<Judged>, a: Text, w: Text, c: byte)
    requires RenaBook(book) && Safe(book) && book.Fires(w) && Accepted(js) == a + w
    ensures var s := Run(book, js);
      var d := Decide(book, s.accepted, s.hit, c, true);
      s.accepted == a + w && d.answer.TransformationFound? && |w| <= d.cut
  {
    hide RenaBook, Safe, Run, SuffixesUp, Advance, Book.Fires, Inv;
    RenaIsWellFormed(book);
    RunConserves(book, js);
    MatcherIgnoresRest(book, js);
    KeyIsPending(book, a, w);
    BestOfNone(book, Run(book, js).hit);
  }

  /** Where a byte of the stream is not the byte matched, the cut is wrong. */
  lemma OtherCut(book: Book, js: seq<Judged>, a: Text, w: Text, r: nat, c: byte)
    requires RenaBook(book) && Safe(book) && book.Fires(w) && Accepted(js) == a + w
    requires r < |w| && r < |Raw(js)| && Raw(js)[|Raw(js)| - 1 - r] != w[|w| - 1 - r]
    ensures !CutMatches(book, Run(book, js), c, true)
  {
    hide RenaBook, Safe, Run, Decide, State.Tail, Book.Fires, Last, Raw, Accepted;
    RenaIsWellFormed(book);
    KeyFires(book, js, a, w, c);
    var s := Run(book, js);
    var k := Decide(book, s.accepted, s.hit, c, true).cut;
    TailIsRaw(book, js, k);
    assert (a + w)[|a + w| - 1 - r] == w[|w| - 1 - r];
    LastsDiffer(Raw(js), a + w, k, r);
  }

  lemma LastsDiffer(x: Text, y: Text, k: nat, r: nat)
    requires r < k && r < |x| && r < |y| && x[|x| - 1 - r] != y[|y| - 1 - r]
    ensures k <= |x| && k <= |y| ==> Last(x, k) != Last(y, k)
  {
    if k <= |x| && k <= |y| {
      assert Last(x, k)[k - 1 - r] == x[|x| - 1 - r];
      assert Last(y, k)[k - 1 - r] == y[|y| - 1 - r];
    }
  }
}
