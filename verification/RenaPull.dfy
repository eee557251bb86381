/** The byte loop of `http_pull` (`rena/src/http.c`): every byte read from a socket
goes through the matcher, and what is decided goes to the client's growing buffer. */
module RenaPull {
  import opened Bytes
  import opened HttpBuffer
  import opened Wrappers
  import opened Rules
  import opened PartialMatches
  import opened RenaMatching
  import opened RenaLookup
  import opened RenaExactness

  /** What a step emits and goes on holding, by the matcher's answer. */
  lemma StepOutput(book: Book, s: State, c: byte, permitted: bool)
    requires book.WellFormed() && Inv(book, s)
    ensures var d := Decide(book, s.accepted, s.hit, c, permitted);
      var t := Step(book, s, c, permitted);
      && t.accepted == d.accepted && t.hit == d.hit
      && d.cut <= |s.held| && (s.hit.Some? ==> s.hit.value.consume <= |s.held|)
      && var kept := s.held[..|s.held| - d.cut];
      match d.answer
      case NotHold =>
        && t.held == [] && t.Emitted() == s.Emitted() + (kept + [c])
        && d.cut == 0 && SuffixesUp(book, t.accepted) == []
      case FeedMe => t.held == kept + [c] && t.Emitted() == s.Emitted()
      case TransformationFound(phrase) => t.held == [c] && t.Emitted() == s.Emitted() + kept + phrase
  {
    hide SuffixesUp, Decide, Rendered;
    DecideKeeps(book, s, c, permitted);
    var d := Decide(book, s.accepted, s.hit, c, permitted);
    var kept := s.held[..|s.held| - d.cut];
    if d.answer.TransformationFound? {
      RenderedPush(s.done, Piece(s.out + kept, s.held[|kept|..], d.answer.phrase));
    } else {
      assert kept == s.held;
    }
  }

  /** The lengths of what one answer appends to the client's buffer. */
  function AnswerAppends(answer: Output, held: nat, cut: nat): seq<nat> {
    match answer
    case FeedMe => []
    case NotHold => [held + 1]
    case TransformationFound(phrase) => (if cut < held then [held - cut] else []) + [|phrase|]
  }

  function StepAppends(book: Book, s: State, c: byte, permitted: bool): seq<nat> {
    var d := Decide(book, s.accepted, s.hit, c, permitted);
    AnswerAppends(d.answer, |s.held|, d.cut)
  }

  /** The lengths of all appends that a stream makes before the flush. */
  function Appends(book: Book, js: seq<Judged>): seq<nat> {
    if js == [] then [] else
    var last := js[|js| - 1];
    var before := js[..|js| - 1];
    Appends(book, before) + StepAppends(book, Run(book, before), last.c, last.permitted)
  }

  /** And with the flush. */
  function StreamAppends(book: Book, js: seq<Judged>): seq<nat> {
    Appends(book, js) + [|Run(book, js).held|]
  }

  lemma RunAppend(book: Book, js: seq<Judged>, j: Judged)
    ensures Run(book, js + [j]) == Step(book, Run(book, js), j.c, j.permitted)
    ensures Appends(book, js + [j]) == Appends(book, js) + StepAppends(book, Run(book, js), j.c, j.permitted)
  {
    assert (js + [j])[..|js|] == js;
  }

  /** The appends of a stream begin with those of what was read first. */
  lemma {:induction false} AppendsGrow(book: Book, js: seq<Judged>, n: nat)
    requires n <= |js|
    ensures Appends(book, js[..n]) <= Appends(book, js)
  {
    hide Run, StepAppends;
    if n < |js| {
      AppendsGrow(book, js[..|js| - 1], n);
      assert js[..|js| - 1][..n] == js[..n];
    } else {
      assert js[..n] == js;
    }
  }

  class Connection {
    const lookupTree: DatabaseObject
    const client: Client
    ghost var fed: seq<Judged>  // every byte read, with the context's verdict on it

    /** The objects are in the state that the byte machine reaches on `fed`. */
    ghost predicate Valid()
      reads this, lookupTree, lookupTree.nodes, lookupTree.input, client, client.protocol, client.protocol.buffer
    {
      && lookupTree.Valid() && Apart()
      && InState(Run(lookupTree.book, fed))
      && client.protocol.FillOf() == Appended(Appends(lookupTree.book, fed))
    }

    ghost predicate Apart()
      reads lookupTree, client, client.protocol
    {
      client.protocol.Valid() && client.protocol.buffer != lookupTree.input
    }

    ghost predicate InState(s: State)
      requires lookupTree.inputSz <= lookupTree.input.Length && Apart()
      reads this, lookupTree, lookupTree.input, client, client.protocol, client.protocol.buffer
    {
      && Inv(lookupTree.book, s)
      && s.accepted == lookupTree.accepted
      && s.hit == lookupTree.Pending()
      && lookupTree.Input() == s.held
      && client.protocol.Contents() == s.Emitted()
    }

    constructor (side: Dict, never: Dict)
      requires side.WellFormed() && never.WellFormed()
      ensures Valid() && fresh(lookupTree) && fresh(lookupTree.input) && fresh(lookupTree.nodes)
      ensures fresh(client) && fresh(client.protocol) && fresh(client.protocol.buffer)
      ensures fed == [] && lookupTree.book == Book(side, never, -129)
    {
      lookupTree := new DatabaseObject(side, never);
      client := new Client();
      fed := [];
    }

    /** One turn of the byte loop, when its appends fit. */
    method PullByte(c: byte, permitted: bool)
      requires Valid() && AllFit(Appends(lookupTree.book, fed + [Judged(c, permitted)]))
      modifies this`fed, lookupTree, lookupTree.nodes, lookupTree.input
      modifies client, client.protocol, client.protocol.buffer
      ensures Valid() && fed == old(fed) + [Judged(c, permitted)]
      ensures fresh(lookupTree.nodes - old(lookupTree.nodes))
      ensures lookupTree.input == old(lookupTree.input) || fresh(lookupTree.input)
      ensures (client.protocol == old(client.protocol) || (fresh(client.protocol) && fresh(client.protocol.buffer)))
    {
      hide Run, Step, Decide, Inv, SuffixesUp, Rendered, State.Emitted, Dict.WellFormed, DatabaseObject.Linked;
      hide Appends, AllFit, Appended;
      ghost var book, s := lookupTree.book, Run(lookupTree.book, fed);
      StepKeepsInv(book, s, c, permitted);
      StepOutput(book, s, c, permitted);
      RunAppend(book, fed, Judged(c, permitted));
      ghost var before := Appends(book, fed);
      fed := fed + [Judged(c, permitted)];
      ghost var held := |lookupTree.Input()|;
      var di := lookupTree.Lookup(c, permitted);
      Deliver(di.value, c, before, held);
    }

    /** The rest of the held bytes leaves, and the replacement behind it. */
    method Replace(phrase: Text, ghost before: seq<nat>, ghost held: nat)
      requires lookupTree.Valid() && Apart() && client.protocol.FillOf() == Appended(before)
      requires lookupTree.inputSz <= held
      requires AllFit(before + AnswerAppends(TransformationFound(phrase), held, held - lookupTree.inputSz))
      modifies lookupTree`inputSz, client, client.protocol, client.protocol.buffer
      ensures lookupTree.Valid() && Apart() && lookupTree.Input() == []
      ensures client.protocol == old(client.protocol) || (fresh(client.protocol) && fresh(client.protocol.buffer))
      ensures client.protocol.FillOf() ==
        Appended(before + AnswerAppends(TransformationFound(phrase), held, held - old(lookupTree.inputSz)))
      ensures client.protocol.Contents() == old(client.protocol.Contents()) + old(lookupTree.Input()) + phrase
    {
      hide Appended, AllFit, Put, Fits, DatabaseObject.Linked;
      TwoAppends(before, lookupTree.inputSz, |phrase|);
      ReleaseRest();
      var moved := ForceOntoBuffer(client, phrase);
    }

    /** What is held leaves, unless it is nothing. */
    method ReleaseRest()
      requires lookupTree.Valid() && Apart()
      requires 0 < lookupTree.inputSz ==> Fits(Put(client.protocol.FillOf(), lookupTree.inputSz))
      modifies lookupTree`inputSz, client, client.protocol, client.protocol.buffer
      ensures lookupTree.Valid() && Apart() && lookupTree.Input() == []
      ensures client.protocol == old(client.protocol) || (fresh(client.protocol) && fresh(client.protocol.buffer))
      ensures client.protocol.FillOf() == (if 0 < old(lookupTree.inputSz) then
        Put(old(client.protocol.FillOf()), old(lookupTree.inputSz)) else old(client.protocol.FillOf()))
      ensures client.protocol.Contents() == old(client.protocol.Contents()) + old(lookupTree.Input())
    {
      hide Put, Fits, DatabaseObject.Linked;
      var holding := lookupTree.GetHolding(true);
      if |holding| > 0 {
        var moved := ForceOntoBuffer(client, holding);
      }
    }

    lemma TwoAppends(before: seq<nat>, kept: nat, phrase: nat)
      requires AllFit(before + ((if 0 < kept then [kept] else []) + [phrase]))
      ensures var mid := if 0 < kept then before + [kept] else before;
        && (0 < kept ==> Appended(mid) == Put(Appended(before), kept) && Fits(Appended(mid)))
        && Fits(Put(Appended(mid), phrase))
        && Appended(before + ((if 0 < kept then [kept] else []) + [phrase])) == Put(Appended(mid), phrase)
    {
      hide Appended, AllFit, Put, Fits;
      var mid := if 0 < kept then before + [kept] else before;
      assert before + ((if 0 < kept then [kept] else []) + [phrase]) == mid + [phrase];
      AllFitPush(mid, phrase);
      if 0 < kept {
        AllFitPush(before, kept);
      }
    }

    /** Holds the byte, lets everything go, or lets the rest and the replacement go. */
    method Deliver(di: Output, c: byte, ghost before: seq<nat>, ghost held: nat)
      requires lookupTree.Valid() && Apart() && client.protocol.FillOf() == Appended(before)
      requires lookupTree.inputSz <= held
      requires di.NotHold? ==> SuffixesUp(lookupTree.book, lookupTree.accepted) == [] && held == lookupTree.inputSz
      requires AllFit(before + AnswerAppends(di, held, held - lookupTree.inputSz))
      modifies lookupTree`input, lookupTree`inputSz, lookupTree.input
      modifies client, client.protocol, client.protocol.buffer
      ensures lookupTree.Valid() && (lookupTree.input == old(lookupTree.input) || fresh(lookupTree.input))
      ensures Apart() &&
        (client.protocol == old(client.protocol) || (fresh(client.protocol) && fresh(client.protocol.buffer)))
      ensures client.protocol.FillOf() == Appended(before + AnswerAppends(di, held, held - old(lookupTree.inputSz)))
      ensures match di
        case FeedMe =>
          && client.protocol.Contents() == old(client.protocol.Contents())
          && lookupTree.Input() == old(lookupTree.Input()) + [c]
        case NotHold =>
          && client.protocol.Contents() == old(client.protocol.Contents()) + (old(lookupTree.Input()) + [c])
          && lookupTree.Input() == []
        case TransformationFound(phrase) =>
          && client.protocol.Contents() == old(client.protocol.Contents()) + old(lookupTree.Input()) + phrase
          && lookupTree.Input() == [c]
    {
      hide Appended, AllFit, DatabaseObject.Linked, SuffixesUp;
      match di
      case FeedMe =>
        assert before + [] == before;
        lookupTree.AddInput(c);
      case TransformationFound(phrase) =>
        Replace(phrase, before, held);
        lookupTree.AddInput(c);
      case NotHold =>
        Release(c, before);
    }

    /** All held bytes leave, and the byte behind them. */
    method Release(c: byte, ghost before: seq<nat>)
      requires lookupTree.Valid() && Apart() && client.protocol.FillOf() == Appended(before)
      requires SuffixesUp(lookupTree.book, lookupTree.accepted) == []
      requires AllFit(before + [lookupTree.inputSz + 1])
      modifies lookupTree`input, lookupTree`inputSz, lookupTree.input
      modifies client, client.protocol, client.protocol.buffer
      ensures lookupTree.Valid() && (lookupTree.input == old(lookupTree.input) || fresh(lookupTree.input))
      ensures Apart() && lookupTree.Input() == []
      ensures client.protocol == old(client.protocol) || (fresh(client.protocol) && fresh(client.protocol.buffer))
      ensures client.protocol.FillOf() == Appended(before + [old(lookupTree.inputSz) + 1])
      ensures client.protocol.Contents() == old(client.protocol.Contents()) + (old(lookupTree.Input()) + [c])
    {
      hide Appended, AllFit, Put, Fits, DatabaseObject.Linked;
      AllFitPush(before, lookupTree.inputSz + 1);
      NothingActive();
      lookupTree.AddInput(c);
      var holding := lookupTree.GetHolding(false);
      var moved := ForceOntoBuffer(client, holding);
    }

    lemma NothingActive()
      requires lookupTree.Valid() && SuffixesUp(lookupTree.book, lookupTree.accepted) == []
      ensures lookupTree.pairs == []
    {
    }

    /** A read of any size; the replacements do not depend on where reads are split. */
    method Pull(js: seq<Judged>)
      requires Valid() && AllFit(Appends(lookupTree.book, fed + js))
      modifies this`fed, lookupTree, lookupTree.nodes, lookupTree.input
      modifies client, client.protocol, client.protocol.buffer
      ensures Valid() && fed == old(fed) + js
      ensures fresh(lookupTree.nodes - old(lookupTree.nodes))
      ensures lookupTree.input == old(lookupTree.input) || fresh(lookupTree.input)
      ensures client.protocol == old(client.protocol) || (fresh(client.protocol) && fresh(client.protocol.buffer))
    {
      hide Run, InState, Connection.Valid, AllFit, Appended, Appends;
      var i := 0;
      while i < |js|
        invariant i <= |js| && Valid() && fed == old(fed) + js[..i]
        invariant fresh(lookupTree.nodes - old(lookupTree.nodes))
        invariant lookupTree.input == old(lookupTree.input) || fresh(lookupTree.input)
        invariant client.protocol == old(client.protocol) || (fresh(client.protocol) && fresh(client.protocol.buffer))
      {
        assert js[..i + 1] == js[..i] + [js[i]];
        ghost var all := old(fed) + js;
        PrefixFits(lookupTree.book, all, |old(fed)| + i + 1);
        assert all[..|old(fed)| + i + 1] == fed + [js[i]];
        PullByte(js[i].c, js[i].permitted);
        i := i + 1;
      }
      assert js[..i] == js;
    }

    /** The end of the stream: what is held leaves as it is, pending key or not. */
    method Flush()
      requires Valid() && AllFit(StreamAppends(lookupTree.book, fed))
      modifies lookupTree`inputSz, client, client.protocol, client.protocol.buffer
      ensures fed == old(fed) && client.protocol.Valid()
      ensures client.protocol.Contents() ==
        Rendered(Run(lookupTree.book, fed).done) + Run(lookupTree.book, fed).Tail()
    {
      hide Run, Rendered, SuffixesUp, Inv, DatabaseObject.Linked, AllFit, Appended, Appends;
      ghost var s := Run(lookupTree.book, fed);
      assert s.Emitted() + s.held == Rendered(s.done) + s.Tail();
      AllFitPush(Appends(lookupTree.book, fed), |s.held|);
      var holding := lookupTree.GetHolding(true);
      var moved := ForceOntoBuffer(client, holding);
    }
  }

  lemma PrefixFits(book: Book, js: seq<Judged>, n: nat)
    requires n <= |js| && AllFit(Appends(book, js))
    ensures AllFit(Appends(book, js[..n]))
  {
    hide Appends, AllFit;
    AppendsGrow(book, js, n);
    var k := |Appends(book, js[..n])|;
    AllFitPrefix(Appends(book, js), k);
    assert Appends(book, js)[..k] == Appends(book, js[..n]);
  }

  /** A whole stream, from the first read to the flush, in the client's own buffer. */
  method RewriteStream(side: Dict, never: Dict, t: Text) returns (out: Text)
    requires side.WellFormed() && never.WellFormed()
    requires AllFit(StreamAppends(Book(side, never, -129), Permitted(t)))
    ensures out == StreamText(Book(side, never, -129), t)
  {
    hide Run, Rendered, Source, Rewrite, Safe, RenaBook, IsKey, Inv, SuffixesUp, DatabaseObject.Linked, AllFit, Appends;
    var c := new Connection(side, never);
    ghost var appends := StreamAppends(c.lookupTree.book, Permitted(t));
    AllFitPrefix(appends, |appends| - 1);
    assert appends[..|appends| - 1] == Appends(c.lookupTree.book, Permitted(t));
    assert c.fed + Permitted(t) == Permitted(t);
    c.Pull(Permitted(t));
    c.Flush();
    out := c.client.protocol.buffer[..c.client.protocol.bufferUsed];
  }

  // ----- which streams fit

  /** No replacement is longer than two structures. */
  ghost predicate ShortRules(book: Book) {
    forall n: Node :: RuleAt(book, n).Some? ==> |RuleAt(book, n).value| <= 2 * STRUCT_SIZE
  }

  lemma StepIsShort(book: Book, s: State, c: byte, permitted: bool)
    requires book.WellFormed() && Inv(book, s) && ShortRules(book) && |s.held| < 2 * STRUCT_SIZE
    ensures AtMost(StepAppends(book, s, c, permitted), 2 * STRUCT_SIZE)
  {
    hide Decide, SuffixesUp, Inv;
    DecideKeeps(book, s, c, permitted);
    var d := Decide(book, s.accepted, s.hit, c, permitted);
    if d.answer.TransformationFound? {
      var n: Node :| RuleAt(book, n) == Some(d.answer.phrase) && |n.path| == d.cut;
    }
  }

  lemma {:induction false} AppendsAreShort(book: Book, js: seq<Judged>)
    requires book.WellFormed() && ShortRules(book)
    requires forall n :: 0 <= n < |js| ==> |Run(book, js[..n]).held| < 2 * STRUCT_SIZE
    ensures AtMost(Appends(book, js), 2 * STRUCT_SIZE)
  {
    hide Run, StepAppends, ShortRules, Inv;
    if js != [] {
      var before, last := js[..|js| - 1], js[|js| - 1];
      assert forall n :: 0 <= n < |before| ==> before[..n] == js[..n];
      AppendsAreShort(book, before);
      RunConserves(book, before);
      StepIsShort(book, Run(book, before), last.c, last.permitted);
    }
  }

  /** A stream fits, with a byte to spare, when never more than two structures' worth, less a
  byte, is held. */
  lemma ShortHoldsFit(book: Book, js: seq<Judged>)
    requires book.WellFormed() && ShortRules(book)
    requires forall n :: 0 <= n <= |js| ==> |Run(book, js[..n]).held| < 2 * STRUCT_SIZE
    ensures AllFit(StreamAppends(book, js)) && Spare(Appended(StreamAppends(book, js)))
  {
    hide Run, Appends, AllFit, ShortRules;
    AppendsAreShort(book, js);
    assert js[..|js|] == js;
    SmallAppendsFit(StreamAppends(book, js));
  }

  /** The stream's text is the input with replacements of the keys' lengths, and on a rule set
  without a clash it is the specification's text of all but the last byte, and that byte. */
  lemma StreamFacts(book: Book, t: Text)
    requires book.WellFormed()
    ensures var s := Run(book, Permitted(t));
      && Source(s.done) + s.Tail() == t
      && (forall i :: 0 <= i < |s.done| ==> IsKey(book, |s.done[i].cut|, s.done[i].put))
      && (RenaBook(book) && Safe(book) && t != [] ==>
            var r := Rewrite(book, t[..|t| - 1]);
            StreamText(book, t) == Rendered(r.pieces) + r.tail + [t[|t| - 1]])
  {
    hide Run, Rendered, Source, Rewrite, Safe, RenaBook, IsKey, SuffixesUp;
    RunConserves(book, Permitted(t));
    RawOfPermitted(t);
    if RenaBook(book) && Safe(book) && t != [] {
      SafeIsExact(book, t);
      var r := Rewrite(book, t[..|t| - 1]);
      assert Rendered(r.pieces) + (r.tail + [t[|t| - 1]]) == Rendered(r.pieces) + r.tail + [t[|t| - 1]];
    }
  }
}
