/** faproxy's stream rewriter: the hold, flush and replace loop of
`http_payload_loader` (`faproxy/src/http.c`). */
module FaRewriter {
  import opened Bytes
  import opened Rules
  import opened PartialMatches
  import opened FaLookup

  /** The text that the whole-text specification makes of `t`. */
  function Rewritten(book: Book, t: Text): Text {
    var r := Rewrite(book, t);
    Rendered(r.pieces) + r.tail
  }

  /** The held bytes end the undecided ones and cover every active lookup. */
  ghost predicate Covers(book: Book, pending: Text, holding: Text) {
    && |holding| <= |pending|
    && holding == pending[|pending| - |holding|..]
    && forall n :: n in Suffixes(book, pending) ==> |n.path| <= |holding|
  }

  /** What is held: the bytes since the last place where nothing began a key. */
  ghost predicate Held(book: Book, pending: Text, holding: Text) {
    var e := |pending| - |holding|;
    && 0 <= e && holding == pending[e..]
    && Silent(book, pending[..e])
    && (forall i :: e < i <= |pending| ==> !Silent(book, pending[..i]))
  }

  lemma NothingHeld(book: Book)
    ensures Held(book, [], [])
  {
  }

  /** After one byte everything is held on, or nothing. */
  lemma HeldStep(book: Book, pending: Text, holding: Text, c: byte)
    requires Held(book, pending, holding)
    ensures Held(book, pending + [c], if Silent(book, pending + [c]) then [] else holding + [c])
  {
    hide Silent;
    var q := pending + [c];
    assert q[..|q|] == q && q[|q|..] == [];
    assert forall i :: 0 <= i <= |pending| ==> q[..i] == pending[..i];
  }

  /** Nothing is held when nothing begins a key. */
  lemma SilentHoldsNothing(book: Book, pending: Text, holding: Text)
    requires Held(book, pending, holding) && Silent(book, pending)
    ensures holding == []
  {
    hide Silent;
    assert pending[..|pending|] == pending;
  }

  /** Without rules nothing is ever held or replaced. */
  lemma {:induction false} NoRulesNoChange(book: Book, t: Text)
    requires book.first.paths == {} && book.second.paths == {} && book.WellFormed()
    ensures Silent(book, t) && Rewrite(book, t) == Rewriting([], t) && Rewritten(book, t) == t
  {
    var e := FirstEnd(book, t, 0);
    assert Rendered([]) + t == t;
  }

  /** What the loop emits and goes on holding for the answer `r` to byte `c`. */
  function Emit(holding: Text, c: byte, r: Result): (Text, Text)
    requires r.TransformOk? ==> 1 <= r.phraseConsume <= |holding| + 1
  {
    match r
    case NotHold => (holding + [c], [])
    case FeedMeAndHold => ([], holding + [c])
    case TransformOk(phrase, consumed) => (holding[..|holding| - (consumed - 1)] + phrase, [])
  }

  /** One more byte either ends a key, whose longest match is replaced, or is kept. */
  lemma RewrittenStep(book: Book, fed: Text, c: byte)
    ensures var r := Rewrite(book, fed);
      var q := r.tail + [c];
      if KeyEndsAt(book, q, |q|) then
        var s := KeyStart(book, q);
        && Rewrite(book, fed + [c]).tail == []
        && Rewritten(book, fed + [c]) == Rendered(r.pieces) + q[..s] + book.Replacement(q[s..])
      else
        && Rewrite(book, fed + [c]).tail == q
        && Rewritten(book, fed + [c]) == Rewritten(book, fed) + [c]
  {
    hide KeyEndsAt, KeyStart, Rewrite;
    var r := Rewrite(book, fed);
    var q := r.tail + [c];
    RewriteExtends(book, fed, c);
    if KeyEndsAt(book, q, |q|) {
      var s := KeyStart(book, q);
      RenderedPush(r.pieces, Piece(q[..s], q[s..], book.Replacement(q[s..])));
    }
  }

  /** The output and the held bytes are what the specification makes of `fed`. */
  ghost predicate Agrees(book: Book, fed: Text, pending: Text, output: Text, holding: Text) {
    && Rewrite(book, fed).tail == pending
    && Covers(book, pending, holding) && Held(book, pending, holding)
    && output + holding == Rewritten(book, fed)
  }

  lemma AgreesOnText(book: Book, fed: Text, pending: Text, output: Text, holding: Text)
    requires Agrees(book, fed, pending, output, holding)
    ensures output + holding == Rewritten(book, fed) && Held(book, Rewrite(book, fed).tail, holding)
  {
  }

  /** The held bytes are always enough for the replaced key, and one turn of the
  loop takes the rewriting of what was read to the rewriting with one more byte. */
  lemma StepKeeps(book: Book, fed: Text, pending: Text, output: Text, holding: Text, c: byte, r: Result, pending': Text)
    requires book.WellFormed() && Agrees(book, fed, pending, output, holding)
    requires Decides(book, pending, c, r, pending')
    ensures r.TransformOk? ==> 2 <= r.phraseConsume <= |holding| + 1
    ensures var (emitted, holding') := Emit(holding, c, r);
      Agrees(book, fed + [c], pending', output + emitted, holding')
  {
    hide Agrees, Rewrite, KeyStart;
    if KeyEndsAt(book, pending + [c], |pending| + 1) {
      StepFires(book, fed, pending, output, holding, c, r.phrase);
    } else {
      StepWaits(book, fed, pending, output, holding, c);
      assert output + [] == output;
    }
  }

  lemma StepWaits(book: Book, fed: Text, pending: Text, output: Text, holding: Text, c: byte)
    requires book.WellFormed() && Agrees(book, fed, pending, output, holding)
    requires !KeyEndsAt(book, pending + [c], |pending| + 1)
    ensures if Suffixes(book, pending + [c]) == []
      then Agrees(book, fed + [c], pending + [c], output + (holding + [c]), [])
      else Agrees(book, fed + [c], pending + [c], output, holding + [c])
  {
    hide Rewrite, Rewritten, KeyStart, Suffixes, KeyEndsAt, Silent, Held, Covers;
    RewrittenStep(book, fed, c);
    HeldStep(book, pending, holding, c);
    CoversNothing(book, pending + [c]);
    SilentIff(book, pending + [c]);
    CoversStep(book, pending, holding, c);
    assert output + (holding + [c]) == (output + holding) + [c];
  }

  lemma CoversNothing(book: Book, pending: Text)
    ensures Suffixes(book, pending) == [] ==> Covers(book, pending, [])
  {
  }

  lemma StepFires(book: Book, fed: Text, pending: Text, output: Text, holding: Text, c: byte, phrase: Text)
    requires book.WellFormed() && Agrees(book, fed, pending, output, holding)
    requires KeyEndsAt(book, pending + [c], |pending| + 1)
    requires var q := pending + [c]; phrase == book.Replacement(q[KeyStart(book, q)..])
    ensures var k := |pending| - KeyStart(book, pending + [c]);
      && 1 <= k <= |holding|
      && Agrees(book, fed + [c], [], output + (holding[..|holding| - k] + phrase), [])
  {
    hide Rewrite, Rendered, KeyEndsAt, Held;
    NothingHeld(book);
    var q := pending + [c];
    var s := KeyStart(book, q);
    var base := Rendered(Rewrite(book, fed).pieces);
    RewrittenStep(book, fed, c);
    FiringIsCovered(book, pending, holding, c, s);
    CutBack(output, holding, base, pending, s);
    assert q[..s] == pending[..s];
    var kept := holding[..|holding| - (|pending| - s)];
    assert output + (kept + phrase) + [] == (output + kept) + phrase;
  }

  /** Dropping the bytes from `s` on can be done in the held part alone. */
  lemma CutBack(output: Text, holding: Text, base: Text, pending: Text, s: nat)
    requires |holding| <= |pending| && |pending| - |holding| <= s <= |pending|
    requires output + holding == base + pending
    ensures output + holding[..|holding| - (|pending| - s)] == base + pending[..s]
  {
    var n := |output| + |holding| - (|pending| - s);
    assert (output + holding)[..n] == output + holding[..n - |output|];
    assert (base + pending)[..n] == base + pending[..s];
  }

  lemma CoversStep(book: Book, pending: Text, holding: Text, c: byte)
    requires book.WellFormed() && Covers(book, pending, holding)
    ensures Covers(book, pending + [c], holding + [c])
  {
    var q := pending + [c];
    SuffixesExact(book, q);
    forall n | n in Suffixes(book, q)
      ensures |n.path| <= |holding| + 1
    {
      var k :| 0 <= k < |q| && SpellsNode(book, q[k..], n);
      if k < |pending| {
        ParentReached(book, pending, c, n, k);
      }
    }
  }

  /** A node reached through `c` was preceded by its parent. */
  lemma ParentReached(book: Book, pending: Text, c: byte, n: Node, k: nat)
    requires book.WellFormed() && k < |pending|
    requires SpellsNode(book, (pending + [c])[k..], n)
    ensures var m := Node(n.second, LowerText(pending[k..]));
      m in Suffixes(book, pending) && |m.path| == |pending| - k
  {
    var w := (pending + [c])[k..];
    assert w == pending[k..] + [c];
    assert LowerText(w)[..|w| - 1] == LowerText(pending[k..]);
    SuffixesExact(book, pending);
    assert SpellsNode(book, pending[k..], Node(n.second, LowerText(pending[k..])));
  }

  lemma FiringIsCovered(book: Book, pending: Text, holding: Text, c: byte, s: nat)
    requires book.WellFormed() && Covers(book, pending, holding)
    requires s <= |pending| && book.Fires((pending + [c])[s..])
    ensures |pending| - s <= |holding| && s < |pending|
  {
    var w := (pending + [c])[s..];
    var n := Node(!book.first.HasKey(w), LowerText(w));
    ParentReached(book, pending, c, n, s);
  }

  class Payload {
    const db: TransformHandler
    var output: Text
    var holding: Text
    ghost var fed: Text  // every byte read so far

    ghost predicate Valid()
      reads this, db, db.lookups
    {
      && db.Valid()
      && Agrees(db.book, fed, db.pending, output, holding)
    }

    constructor (never: Dict, other: Dict)
      requires never.WellFormed() && other.WellFormed()
      ensures Valid() && fresh(db) && fresh(db.lookups)
      ensures fed == output == holding == []
      ensures db.book == Book(never, other, SPACE as int)
    {
      db := new TransformHandler(never, other);
      output, holding, fed := [], [], [];
    }

    /** Whatever the chunks were: what is out, and what is still held, is the
    whole-text rewriting of everything read. */
    method Load(buffer: Text) returns (ret: int)
      requires Valid()
      modifies this`output, this`holding, this`fed, db`lookups, db`nLookups, db`pending, db.lookups
      ensures Valid() && (db.lookups == old(db.lookups) || fresh(db.lookups))
      ensures fed == old(fed) + buffer
      ensures output + holding == Rewritten(db.book, fed) && Held(db.book, Rewrite(db.book, fed).tail, holding)
      ensures old(output) <= output
      ensures ret == -1 <==> buffer == []
      ensures ret == 1 <==> buffer != [] && holding == old(holding) + buffer
      ensures ret == 1 ==> output == old(output)
      ensures ret == -1 || ret == 0 || ret == 1
    {
      hide Agrees;
      ret := -1;
      var u := 0;
      while u < |buffer|
        invariant u <= |buffer| && Valid()
        invariant db.lookups == old(db.lookups) || fresh(db.lookups)
        invariant fed == old(fed) + buffer[..u]
        invariant old(output) <= output
        invariant ret == -1 <==> u == 0
        invariant ret == -1 || ret == 0 || ret == 1
        invariant ret == 0 ==> |holding| < |old(holding)| + u
        invariant ret != 0 ==> output == old(output) && holding == old(holding) + buffer[..u]
      {
        assert buffer[..u + 1] == buffer[..u] + [buffer[u]];
        var decided := LoadByte(buffer[u]);
        assert fed == old(fed) + buffer[..u + 1];
        if decided {
          ret := 0;
        } else if ret < 0 {
          ret := 1;
        }
        u := u + 1;
      }
      assert buffer[..u] == buffer;
      AgreesOnText(db.book, fed, db.pending, output, holding);
    }

    /** One turn of the loop; `decided` when bytes left for the output. */
    method LoadByte(c: byte) returns (decided: bool)
      requires Valid()
      modifies this`output, this`holding, this`fed, db`lookups, db`nLookups, db`pending, db.lookups
      ensures Valid() && (db.lookups == old(db.lookups) || fresh(db.lookups))
      ensures fed == old(fed) + [c]
      ensures old(output) <= output
      ensures if decided then |holding| <= |old(holding)| else output == old(output) && holding == old(holding) + [c]
    {
      hide Agrees, Decides;
      ghost var pending := db.pending;
      var r := db.TransformLookup(c);
      StepKeeps(db.book, fed, pending, output, holding, c, r, db.pending);
      fed := fed + [c];
      decided := Settle(c, r);
    }

    /** Flush, hold or replace, as the matcher decided. */
    method Settle(c: byte, r: Result) returns (decided: bool)
      requires r.TransformOk? ==> 2 <= r.phraseConsume <= |holding| + 1
      modifies this`output, this`holding
      ensures output == old(output) + Emit(old(holding), c, r).0
      ensures holding == Emit(old(holding), c, r).1
      ensures decided <==> !r.FeedMeAndHold?
    {
      match r
      case NotHold =>
        if 0 < |holding| {
          output := output + holding;
          holding := [];
        }
        output := output + [c];
        decided := true;
      case FeedMeAndHold =>
        holding := holding + [c];
        decided := false;
      case TransformOk(phrase, consumed) =>
        if 0 < |holding| {
          holding := holding[..|holding| - (consumed - 1)];
          output := output + holding;
          holding := [];
        }
        output := output + phrase;
        decided := true;
    }
  }
}
