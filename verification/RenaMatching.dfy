/** rena's rewriter as a machine over byte sequences: what one byte does to the
matcher, the held bytes and the output (`rena/src/database.c`, `rena/src/http.c`). */
module RenaMatching {
  import opened Bytes
  import opened Wrappers
  import opened Rules
  import opened PartialMatches

  /** A completed key waiting for the partial matches before the next byte to die. */
  datatype Hit = Hit(phrase: Text, consume: nat)

  /** The pending match after the advanced nodes `ns` were visited in list order:
  a longer key replaces a shorter one, an equally long one does not. */
  function Best(book: Book, hit: Option<Hit>, ns: seq<Node>): Option<Hit>
    decreases ns
  {
    if ns == [] then hit
    else
      var rule := RuleAt(book, ns[0]);
      var better := rule.Some? && (hit.None? || hit.value.consume < |ns[0].path|);
      Best(book, if better then Some(Hit(rule.value, |ns[0].path|)) else hit, ns[1..])
  }

  /** `accepted`: the bytes the context let through; `done`: the replacements made;
  `out` and `held`: the bytes since the last, in the output already or still held.
  `aborted`: more was to be cut than is held. */
  datatype State = State(accepted: Text, hit: Option<Hit>, done: seq<Piece>, out: Text, held: Text, aborted: bool) {
    function Tail(): Text {
      out + held
    }

    /** The bytes that left for the client. */
    function Emitted(): Text {
      Rendered(done) + out
    }
  }

  const START := State([], None, [], [], [], false)

  function Active(book: Book, s: State): seq<Node> {
    SuffixesUp(book, s.accepted)
  }

  /** The matcher's answer: let go of what is held, hold on, or replace. */
  datatype Output = NotHold | FeedMe | TransformationFound(phrase: Text)

  /** The matcher after a byte, its answer, and how much of the input it cut off. */
  datatype Decision = Decision(accepted: Text, hit: Option<Hit>, answer: Output, cut: nat)

  /** The matcher's part of a step. */
  function Decide(book: Book, accepted: Text, hit: Option<Hit>, c: byte, permitted: bool): Decision {
    if permitted then
      var ns := Advance(book, SuffixesUp(book, accepted), c);
      var best := Best(book, hit, ns);
      var now := accepted + [c];
      if ns == [] && best.Some? then
        Decision(now, None, TransformationFound(best.value.phrase), best.value.consume)
      else
        Decision(now, best, if SuffixesUp(book, now) == [] then NotHold else FeedMe, 0)
    else
      Decision(accepted, hit, if SuffixesUp(book, accepted) == [] then NotHold else FeedMe, 0)
  }

  /** One byte, with the context's verdict on it. */
  function Step(book: Book, s: State, c: byte, permitted: bool): State {
    var d := Decide(book, s.accepted, s.hit, c, permitted);
    var t := s.(accepted := d.accepted, hit := d.hit);
    match d.answer
    case NotHold => t.(out := s.out + (s.held + [c]), held := [])
    case FeedMe => t.(held := s.held + [c])
    case TransformationFound(phrase) => Fire(t, Hit(phrase, d.cut), c)
  }

  /** The pending key is cut off the end of the held bytes; `c` is held after it. */
  function Fire(s: State, hit: Hit, c: byte): State {
    if hit.consume <= |s.held| then
      var at := |s.held| - hit.consume;
      s.(done := s.done + [Piece(s.out + s.held[..at], s.held[at..], hit.phrase)], out := [], held := [c])
    else
      s.(aborted := true)
  }

  /** A byte of the stream and what the context says about it. */
  datatype Judged = Judged(c: byte, permitted: bool)

  function Run(book: Book, js: seq<Judged>): State {
    if js == [] then START
    else Step(book, Run(book, js[..|js| - 1]), js[|js| - 1].c, js[|js| - 1].permitted)
  }

  /** What every step keeps: a pending key implies active partial matches, the held
  bytes are enough for it and for every one of those, and what was cut had the
  length of the key whose replacement it got. */
  ghost predicate Inv(book: Book, s: State) {
    && !s.aborted
    && (s.hit.Some? ==> Active(book, s) != [] && GoodHit(book, s.hit.value, |s.held|))
    && Within(Active(book, s), 1, |s.held|)
    && (forall i :: 0 <= i < |s.done| ==> IsKey(book, |s.done[i].cut|, s.done[i].put))
  }

  ghost predicate GoodHit(book: Book, h: Hit, held: nat) {
    2 <= h.consume <= held && IsKey(book, h.consume, h.phrase)
  }

  ghost predicate Within(ns: seq<Node>, low: nat, high: nat) {
    forall n :: n in ns ==> low <= |n.path| <= high
  }

  /** Some key of length `len` is replaced by `put`. */
  ghost predicate IsKey(book: Book, len: nat, put: Text) {
    exists n: Node :: RuleAt(book, n) == Some(put) && |n.path| == len
  }

  lemma {:induction false} BestIsKey(book: Book, hit: Option<Hit>, ns: seq<Node>, held: nat)
    requires Within(ns, 2, held)
    requires hit.Some? ==> GoodHit(book, hit.value, held)
    ensures var best := Best(book, hit, ns); best.Some? ==> GoodHit(book, best.value, held)
    decreases ns
  {
    if ns != [] {
      var rule := RuleAt(book, ns[0]);
      var better := rule.Some? && (hit.None? || hit.value.consume < |ns[0].path|);
      assert rule.Some? ==> IsKey(book, |ns[0].path|, rule.value);
      BestIsKey(book, if better then Some(Hit(rule.value, |ns[0].path|)) else hit, ns[1..], held);
    }
  }

  lemma {:induction false} AdvanceWithin(book: Book, ns: seq<Node>, c: byte, low: nat, high: nat)
    requires Within(ns, low, high)
    ensures Within(Advance(book, ns, c), low + 1, high + 1)
  {
    if ns != [] {
      AdvanceWithin(book, ns[1..], c, low, high);
    }
  }

  /** Reading an accepted byte: the matcher's own part of a step. */
  lemma ReadKeeps(book: Book, s: State, c: byte)
    requires book.WellFormed() && Inv(book, s)
    ensures var ns := Advance(book, Active(book, s), c);
      var hit := Best(book, s.hit, ns);
      && SuffixesUp(book, s.accepted + [c]) == Here(book, [c]) + ns
      && Within(Here(book, [c]), 1, 1)
      && Within(ns, 2, |s.held| + 1)
      && (hit.Some? ==> GoodHit(book, hit.value, |s.held| + 1))
      && (ns == [] ==> hit == s.hit)
  {
    var ns := Advance(book, Active(book, s), c);
    AdvanceWithin(book, Active(book, s), c, 1, |s.held|);
    BestIsKey(book, s.hit, ns, |s.held| + 1);
    SuffixesUpStep(book, s.accepted, c);
  }

  lemma FireKeeps(book: Book, s: State, hit: Hit, c: byte)
    requires !s.aborted && s.hit.None?
    requires GoodHit(book, hit, |s.held|)
    requires Within(Active(book, s), 1, 1)
    requires forall i :: 0 <= i < |s.done| ==> IsKey(book, |s.done[i].cut|, s.done[i].put)
    ensures Inv(book, Fire(s, hit, c))
  {
    hide IsKey;
    assert |s.held[|s.held| - hit.consume..]| == hit.consume;
  }

  /** What the matcher's answer says about the state it leaves behind. */
  lemma DecideKeeps(book: Book, s: State, c: byte, permitted: bool)
    requires book.WellFormed() && Inv(book, s)
    ensures var d := Decide(book, s.accepted, s.hit, c, permitted);
      var now := SuffixesUp(book, d.accepted);
      match d.answer
      case NotHold => now == [] && d.hit.None? && d.cut == 0
      case FeedMe =>
        && now != [] && Within(now, 1, |s.held| + 1) && d.cut == 0
        && (d.hit.Some? ==> GoodHit(book, d.hit.value, |s.held| + 1))
      case TransformationFound(phrase) =>
        d.hit.None? && GoodHit(book, Hit(phrase, d.cut), |s.held|) && Within(now, 1, 1)
  {
    hide Best, Advance, SuffixesUp, Here, IsKey;
    if permitted {
      ReadKeeps(book, s, c);
    }
  }

  lemma StepKeepsInv(book: Book, s: State, c: byte, permitted: bool)
    requires book.WellFormed() && Inv(book, s)
    ensures Inv(book, Step(book, s, c, permitted))
  {
    hide Decide, Fire, SuffixesUp, IsKey;
    var d := Decide(book, s.accepted, s.hit, c, permitted);
    DecideKeeps(book, s, c, permitted);
    if d.answer.TransformationFound? {
      FireKeeps(book, s.(accepted := d.accepted, hit := d.hit), Hit(d.answer.phrase, d.cut), c);
    }
  }

  function Raw(js: seq<Judged>): Text {
    if js == [] then [] else Raw(js[..|js| - 1]) + [js[|js| - 1].c]
  }

  /** The bytes the context let through. */
  function Accepted(js: seq<Judged>): Text {
    if js == [] then []
    else Accepted(js[..|js| - 1]) + (if js[|js| - 1].permitted then [js[|js| - 1].c] else [])
  }

  /** Over every stream, every verdict and every rule set: the abort is never
  reached, no byte is lost or repeated, every cut is as long as the key whose
  replacement took its place, and the matcher has followed the accepted bytes. */
  lemma {:induction false} RunConserves(book: Book, js: seq<Judged>)
    requires book.WellFormed()
    ensures Inv(book, Run(book, js))
    ensures Source(Run(book, js).done) + Run(book, js).Tail() == Raw(js)
    ensures Run(book, js).accepted == Accepted(js)
  {
    if js == [] {
      assert Active(book, START) == [];
    } else {
      var last := js[|js| - 1];
      var s := Run(book, js[..|js| - 1]);
      RunConserves(book, js[..|js| - 1]);
      StepKeepsInv(book, s, last.c, last.permitted);
      StepConserves(book, s, last.c, last.permitted);
    }
  }

  /** A step either makes one replacement, of the bytes before `c`, or keeps `c`. */
  lemma StepTail(book: Book, s: State, c: byte, permitted: bool)
    ensures var d := Decide(book, s.accepted, s.hit, c, permitted);
      var t := Step(book, s, c, permitted);
      && t.accepted == d.accepted && t.hit == d.hit
      && if d.answer.TransformationFound? then
        d.cut <= |s.held| ==>
          var k := |s.Tail()| - d.cut;
          && t.done == s.done + [Piece(s.Tail()[..k], s.Tail()[k..], d.answer.phrase)]
          && t.Tail() == [c]
      else
        t.done == s.done && t.Tail() == s.Tail() + [c]
  {
    hide Decide;
    var d := Decide(book, s.accepted, s.hit, c, permitted);
    if d.answer.TransformationFound? && d.cut <= |s.held| {
      var at := |s.held| - d.cut;
      assert (s.out + s.held)[..|s.out| + at] == s.out + s.held[..at];
      assert (s.out + s.held)[|s.out| + at..] == s.held[at..];
    }
  }

  lemma StepConserves(book: Book, s: State, c: byte, permitted: bool)
    requires !s.aborted && !Step(book, s, c, permitted).aborted
    ensures var t := Step(book, s, c, permitted);
      && Source(t.done) + t.Tail() == Source(s.done) + s.Tail() + [c]
      && t.accepted == s.accepted + (if permitted then [c] else [])
  {
    hide Best, Advance, SuffixesUp;
    var d := Decide(book, s.accepted, s.hit, c, permitted);
    StepTail(book, s, c, permitted);
    if d.answer.TransformationFound? {
      var k := |s.Tail()| - d.cut;
      SourcePush(s.done, Piece(s.Tail()[..k], s.Tail()[k..], d.answer.phrase));
      assert s.Tail() == s.Tail()[..k] + s.Tail()[k..];
    }
  }

  lemma SourcePush(ps: seq<Piece>, p: Piece)
    ensures Source(ps + [p]) == Source(ps) + p.before + p.cut
  {
    assert (ps + [p])[..|ps|] == ps;
  }
}
