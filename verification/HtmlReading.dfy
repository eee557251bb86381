/** An HTML body read by descent: words, tags, attribute values and comments, each up to where
it ends. The parsers of the rewriter read every body so (`squid/src/helpers/ecap_logic_reply.py`). */
module HtmlReading {
  import opened Bytes
  import opened Wrappers
  import opened HtmlAdapter

  datatype Mode = Words | Tag | Attribute | Comment

  /** The first place with one of the bytes, or the end. */
  function FirstOf(t: Text, ends: Text): (e: nat)
    ensures e <= |t| && (e < |t| ==> t[e] in ends)
    ensures forall i :: 0 <= i < e ==> t[i] !in ends
  {
    if t == [] || t[0] in ends then 0 else 1 + FirstOf(t[1..], ends)
  }

  function Dashes(t: Text): nat {
    if t == [] then 0 else Dashes(t[..|t| - 1]) + if t[|t| - 1] == DASH then 1 else 0
  }

  /** A `>` that has two dashes before it in the comment. */
  predicate ClosesComment(t: Text, i: nat)
    requires i < |t|
  {
    t[i] == GREATER && 2 <= Dashes(t[..i])
  }

  /** The first such place from `from` on, or the end. */
  function CommentEnd(t: Text, from: nat): (e: nat)
    requires from <= |t|
    ensures from <= e <= |t| && (e < |t| ==> ClosesComment(t, e))
    ensures forall i :: from <= i < e ==> !ClosesComment(t, i)
    decreases |t| - from
  {
    if from == |t| || ClosesComment(t, from) then from else CommentEnd(t, from + 1)
  }

  /** A value that begins with a quote ends at the next one, others at white space or `>`. */
  function ValueEnd(t: Text): (e: nat)
    ensures e <= |t| && IsValue(t[..e]) && (e < |t| ==> t[e] in Ends(t[..e]))
  {
    if t != [] && t[0] in QUOTES then
      var e := 1 + FirstOf(t[1..], [t[0]]);
      assert forall i :: 0 < i < e ==> t[i] == t[1..][i - 1];
      e
    else
      var e := FirstOf(t, DELIM);
      assert e > 0 ==> t[..e][0] == t[0];
      e
  }

  function Markups(t: Text): (ts: seq<Token>)
    ensures |ts| == |t|
  {
    seq(|t|, i requires 0 <= i < |t| => Markup(t[i]))
  }

  const OPENING: Text := [BANG, DASH, DASH]

  /** `!--` begins a comment, unless what was read so far was sent off in the middle of it:
  `cuts` are the places where that happened. */
  predicate OpensComment(t: Text, at: nat, cuts: set<nat>) {
    OPENING <= t && at + 1 !in cuts && at + 2 !in cuts
  }

  /** The tokens of `t`, which begins at place `at` of the body. */
  function Reading(m: Mode, t: Text, at: nat, cuts: set<nat>): seq<Token>
    decreases |t|
  {
    match m
    case Words =>
      var e := FirstOf(t, WORD_ENDS);
      if e == |t| then []
      else [Word(t[..e], t[e])] + Reading(AfterWord(t[e]), t[e + 1..], at + e + 1, cuts)
    case Tag =>
      if t == [] then []
      else if OpensComment(t, at, cuts) then Markups(OPENING) + Reading(Comment, t[3..], at + 3, cuts)
      else [Markup(t[0])] + Reading(AfterMarkup(t[0]), t[1..], at + 1, cuts)
    case Comment =>
      var e := CommentEnd(t, 0);
      if e == |t| then Markups(t) else Markups(t[..e + 1]) + Reading(Words, t[e + 1..], at + e + 1, cuts)
    case Attribute =>
      var e := ValueEnd(t);
      if e == |t| then [] else [Value(t[..e], t[e])] + Reading(Tag, t[e + 1..], at + e + 1, cuts)
  }

  const WORD_ENDS: Text := SPACES + [LESS]

  function AfterWord(end: byte): Mode {
    if end == LESS then Tag else Words
  }

  function AfterMarkup(b: byte): Mode {
    if b == GREATER then Words else if b == EQUALS then Attribute else Tag
  }

  // ----- the parsers, with what they made sent off at the cuts

  function Flushed(s: Snapshot, at: nat, cuts: set<nat>): Snapshot {
    if at in cuts then s.(buffer := []) else s
  }

  /** The state after `t`, read from place `at` on. */
  function RunCut(redirect: Redirect, s: Snapshot, at: nat, t: Text, cuts: set<nat>): Snapshot {
    if t == [] then s
    else
      var before := t[..|t| - 1];
      Flushed(Step(redirect, RunCut(redirect, s, at, before, cuts), t[|t| - 1], false), at + |t|, cuts)
  }

  /** The tokens made on the way. */
  function Made(redirect: Redirect, s: Snapshot, at: nat, t: Text, cuts: set<nat>): seq<Token> {
    if t == [] then []
    else
      var before := t[..|t| - 1];
      TokensAfter(RunCut(redirect, s, at, before, cuts), Made(redirect, s, at, before, cuts), t[|t| - 1])
  }

  lemma {:induction false} RunOn(redirect: Redirect, s: Snapshot, at: nat, a: Text, b: Text, cuts: set<nat>)
    ensures RunCut(redirect, s, at, a + b, cuts) ==
      RunCut(redirect, RunCut(redirect, s, at, a, cuts), at + |a|, b, cuts)
    ensures Made(redirect, s, at, a + b, cuts) ==
      Made(redirect, s, at, a, cuts) + Made(redirect, RunCut(redirect, s, at, a, cuts), at + |a|, b, cuts)
    decreases |b|
  {
    hide Step, TokensAfter;
    if b == [] {
      assert a + b == a;
    } else {
      var c := b[..|b| - 1];
      assert (a + b)[..|a + b| - 1] == a + c && (a + b)[|a + b| - 1] == b[|b| - 1];
      RunOn(redirect, s, at, a, c, cuts);
      var u := RunCut(redirect, s, at, a, cuts);
      TokensJoin(RunCut(redirect, u, at + |a|, c, cuts), Made(redirect, s, at, a, cuts),
                 Made(redirect, u, at + |a|, c, cuts), b[|b| - 1]);
    }
  }

  lemma TokensJoin(s: Snapshot, a: seq<Token>, b: seq<Token>, head: byte)
    ensures TokensAfter(s, a + b, head) == a + TokensAfter(s, b, head)
  {
  }

  lemma RunOne(redirect: Redirect, s: Snapshot, at: nat, c: byte, cuts: set<nat>)
    ensures RunCut(redirect, s, at, [c], cuts) == Flushed(Step(redirect, s, c, false), at + 1, cuts)
    ensures Made(redirect, s, at, [c], cuts) == TokensAfter(s, [], c)
  {
    hide Step, TokensAfter;
    assert [c][..0] == [];
  }

  /** Nothing waits. */
  predicate Idle(s: Snapshot) {
    s.contextText == [] && s.contextAtrb == [] && s.adaptationWait == None
  }

  /** No part of a `!--` that goes on in `t` has been read. */
  predicate TagClear(s: Snapshot, t: Text, at: nat, cuts: set<nat>) {
    && (EndsWith(s.buffer, [BANG]) ==> !([DASH, DASH] <= t && at + 1 !in cuts))
    && (EndsWith(s.buffer, [BANG, DASH]) ==> !([DASH] <= t))
  }

  /** The parsers stand where the reading stands. */
  predicate StandsAt(s: Snapshot, m: Mode, t: Text, at: nat, cuts: set<nat>) {
    && Idle(s)
    && match m
       case Words => s.adaptation.Unknown? || s.adaptation.OutsideTag?
       case Tag => s.adaptation.InsideTag? && TagClear(s, t, at, cuts)
       case Attribute => s.adaptation.InsideAttribute?
       case Comment => s.adaptation.InsideComment? && s.stage == 0
  }

  // ----- words

  lemma {:induction false} WordRun(redirect: Redirect, s: Snapshot, at: nat, w: Text, cuts: set<nat>)
    requires s.adaptation.Unknown? || s.adaptation.OutsideTag?
    requires s.contextText == [] && IsWord(w)
    ensures var u := RunCut(redirect, s, at, w, cuts); u == s.(contextText := w, buffer := u.buffer)
    ensures Made(redirect, s, at, w, cuts) == []
    decreases |w|
  {
    hide RunCut, Made, IsWord, Changed, SPACES;
    if w == [] {
      RunNone(redirect, s, at, cuts);
    } else {
      var v, c := w[..|w| - 1], w[|w| - 1];
      WordShrinks(w);
      WordRun(redirect, s, at, v, cuts);
      assert v + [c] == w;
      RunOn(redirect, s, at, v, [c], cuts);
      RunOne(redirect, RunCut(redirect, s, at, v, cuts), at + |v|, c, cuts);
    }
  }

  lemma WordShrinks(w: Text)
    requires w != [] && IsWord(w)
    ensures IsWord(w[..|w| - 1]) && w[|w| - 1] !in SPACES && w[|w| - 1] != LESS
  {
  }

  lemma RunNone(redirect: Redirect, s: Snapshot, at: nat, cuts: set<nat>)
    ensures RunCut(redirect, s, at, [], cuts) == s && Made(redirect, s, at, [], cuts) == []
  {
  }

  lemma WordEnds(redirect: Redirect, s: Snapshot, t: Text, at: nat, cuts: set<nat>)
    requires StandsAt(s, Words, t, at, cuts)
    ensures var e := FirstOf(t, WORD_ENDS);
      if e == |t| then Made(redirect, s, at, t, cuts) == []
      else
        && Made(redirect, s, at, t[..e + 1], cuts) == [Word(t[..e], t[e])]
        && StandsAt(RunCut(redirect, s, at, t[..e + 1], cuts), AfterWord(t[e]), t[e + 1..], at + e + 1, cuts)
  {
    hide RunCut, Made, Changed, IsWord, EndsWith, SPACES;
    var e := FirstOf(t, WORD_ENDS);
    FirstIsWord(t);
    NothingEnds();
    if e == |t| {
      assert t[..e] == t;
      WordRun(redirect, s, at, t, cuts);
    } else {
      var w := t[..e];
      assert t[..e + 1] == w + [t[e]];
      WordRun(redirect, s, at, w, cuts);
      RunOn(redirect, s, at, w, [t[e]], cuts);
      var u := RunCut(redirect, s, at, w, cuts);
      RunOne(redirect, u, at + e, t[e], cuts);
      LastTwo(u.buffer + Changed(redirect, w, u.ignoreText), t[e]);
    }
  }

  lemma FirstIsWord(t: Text)
    ensures IsWord(t[..FirstOf(t, WORD_ENDS)])
  {
  }

  // ----- values

  lemma {:induction false} ValueRun(redirect: Redirect, s: Snapshot, at: nat, w: Text, cuts: set<nat>)
    requires s.adaptation.InsideAttribute? && Idle(s) && IsValue(w)
    ensures var u := RunCut(redirect, s, at, w, cuts);
      u == s.(contextAtrb := w, adaptationWait := if w == [] then None else Some(Ends(w)), buffer := u.buffer)
    ensures Made(redirect, s, at, w, cuts) == []
    decreases |w|
  {
    hide Ends, RunCut, Made, IsValue, Step, TokensAfter;
    if w == [] {
      RunNone(redirect, s, at, cuts);
    } else {
      var v, c := w[..|w| - 1], w[|w| - 1];
      ValueShrinks(w);
      ValueRun(redirect, s, at, v, cuts);
      ValueByte(redirect, RunCut(redirect, s, at, v, cuts), c);
      assert v + [c] == w;
      RunOn(redirect, s, at, v, [c], cuts);
      RunOne(redirect, RunCut(redirect, s, at, v, cuts), at + |v|, c, cuts);
    }
  }

  lemma ValueByte(redirect: Redirect, s: Snapshot, c: byte)
    requires s.adaptation.InsideAttribute? && IsValue(s.contextAtrb) && c !in Ends(s.contextAtrb)
    requires s.adaptationWait == if s.contextAtrb == [] then None else Some(Ends(s.contextAtrb))
    ensures Step(redirect, s, c, false) ==
      s.(contextAtrb := s.contextAtrb + [c], adaptationWait := Some(Ends(s.contextAtrb + [c])))
    ensures TokensAfter(s, [], c) == []
  {
    hide Ends, IsValue, Changed;
    NoValueYet();
    ValueGrows(s.contextAtrb, c);
    assert s.contextAtrb == [] ==> s.contextAtrb + [c] == [c];
  }

  lemma ValueShrinks(w: Text)
    requires w != [] && IsValue(w)
    ensures IsValue(w[..|w| - 1]) && w[|w| - 1] !in Ends(w[..|w| - 1])
  {
  }

  lemma ValueIsRead(redirect: Redirect, s: Snapshot, t: Text, at: nat, cuts: set<nat>)
    requires StandsAt(s, Attribute, t, at, cuts)
    ensures var e := ValueEnd(t);
      if e == |t| then Made(redirect, s, at, t, cuts) == []
      else
        && Made(redirect, s, at, t[..e + 1], cuts) == [Value(t[..e], t[e])]
        && StandsAt(RunCut(redirect, s, at, t[..e + 1], cuts), Tag, t[e + 1..], at + e + 1, cuts)
  {
    hide RunCut, Made, Changed, IsValue, ValueEnd, Ends, EndsWith;
    var e := ValueEnd(t);
    NoValueYet();
    NothingEnds();
    if e == |t| {
      assert t[..e] == t;
      ValueRun(redirect, s, at, t, cuts);
    } else {
      var w := t[..e];
      assert t[..e + 1] == w + [t[e]];
      ValueRun(redirect, s, at, w, cuts);
      RunOn(redirect, s, at, w, [t[e]], cuts);
      var u := RunCut(redirect, s, at, w, cuts);
      RunOne(redirect, u, at + e, t[e], cuts);
      NoDashEnds(w);
      LastTwo(u.buffer + Changed(redirect, w, false), t[e]);
    }
  }

  /** No value ends with a byte of a comment's opening. */
  lemma NoDashEnds(w: Text)
    ensures BANG !in Ends(w) && DASH !in Ends(w)
  {
  }

  // ----- comments

  lemma {:induction false} CommentRun(redirect: Redirect, s: Snapshot, at: nat, w: Text, cuts: set<nat>)
    requires s.adaptation.InsideComment? && s.stage == 0
    requires forall i :: 0 <= i < |w| ==> !ClosesComment(w, i)
    ensures var u := RunCut(redirect, s, at, w, cuts);
      u == s.(stage := if Dashes(w) < 2 then Dashes(w) else 2, buffer := u.buffer)
    ensures Made(redirect, s, at, w, cuts) == Markups(w)
    decreases |w|
  {
    if w != [] {
      var v := w[..|w| - 1];
      assert forall i :: 0 <= i < |v| ==> v[..i] == w[..i];
      assert forall i :: 0 <= i < |v| ==> ClosesComment(v, i) == ClosesComment(w, i);
      CommentRun(redirect, s, at, v, cuts);
      assert !ClosesComment(w, |w| - 1);
      assert Markups(w) == Markups(v) + [Markup(w[|w| - 1])];
    }
  }

  lemma CommentIsRead(redirect: Redirect, s: Snapshot, t: Text, at: nat, cuts: set<nat>)
    requires StandsAt(s, Comment, t, at, cuts)
    ensures var e := CommentEnd(t, 0);
      if e == |t| then Made(redirect, s, at, t, cuts) == Markups(t)
      else
        && Made(redirect, s, at, t[..e + 1], cuts) == Markups(t[..e + 1])
        && StandsAt(RunCut(redirect, s, at, t[..e + 1], cuts), Words, t[e + 1..], at + e + 1, cuts)
  {
    hide RunCut, Made, Dashes;
    var e := CommentEnd(t, 0);
    if e == |t| {
      CommentRun(redirect, s, at, t, cuts);
    } else {
      var w := t[..e];
      assert t[..e + 1] == w + [t[e]];
      assert forall i :: 0 <= i < e ==> w[..i] == t[..i];
      assert forall i :: 0 <= i < e ==> ClosesComment(w, i) == ClosesComment(t, i);
      CommentRun(redirect, s, at, w, cuts);
      RunOn(redirect, s, at, w, [t[e]], cuts);
      RunOne(redirect, RunCut(redirect, s, at, w, cuts), at + e, t[e], cuts);
      assert Markups(w + [t[e]]) == Markups(w) + [Markup(t[e])];
    }
  }

  // ----- tags

  lemma LastTwo(t: Text, c: byte)
    ensures EndsWith(t + [c], [BANG]) <==> c == BANG
    ensures EndsWith(t + [c], [BANG, DASH]) <==> c == DASH && EndsWith(t, [BANG])
  {
    if c == DASH && EndsWith(t, [BANG]) {
      assert (t + [c])[|t| - 1..] == [BANG, DASH];
    }
    if EndsWith(t + [c], [BANG, DASH]) {
      assert (t + [c])[|t| - 1..] == [BANG, DASH];
      assert (t + [c])[|t|] == c && (t + [c])[|t| - 1] == BANG;
      assert t[|t| - 1..] == [BANG];
    }
    assert (t + [c])[|t|..] == [c];
  }

  lemma MarkupIsRead(redirect: Redirect, s: Snapshot, t: Text, at: nat, cuts: set<nat>)
    requires StandsAt(s, Tag, t, at, cuts) && t != [] && !OpensComment(t, at, cuts)
    ensures Made(redirect, s, at, t[..1], cuts) == [Markup(t[0])]
    ensures StandsAt(RunCut(redirect, s, at, t[..1], cuts), AfterMarkup(t[0]), t[1..], at + 1, cuts)
  {
    hide RunCut, Made, EndsWith;
    assert t[..1] == [t[0]];
    RunOne(redirect, s, at, t[0], cuts);
    LastTwo(s.buffer, t[0]);
    NothingEnds();
    PrefixHead(t);
  }

  lemma NothingEnds()
    ensures !EndsWith([], [BANG]) && !EndsWith([], [BANG, DASH])
  {
  }

  lemma PrefixHead(t: Text)
    requires t != []
    ensures OPENING <= t <==> t[0] == BANG && [DASH, DASH] <= t[1..]
    ensures [DASH, DASH] <= t <==> t[0] == DASH && [DASH] <= t[1..]
    ensures [DASH] <= t <==> t[0] == DASH
  {
    if t[0] == BANG && [DASH, DASH] <= t[1..] {
      assert t[1..][0] == DASH && t[1..][1] == DASH;
    }
    if OPENING <= t {
      assert t[1..][..2] == [DASH, DASH];
    }
    if t[0] == DASH && [DASH] <= t[1..] {
      assert t[1..][0] == DASH;
    }
    if [DASH, DASH] <= t {
      assert t[1..][..1] == [DASH];
    }
  }

  lemma OpeningIsRead(redirect: Redirect, s: Snapshot, t: Text, at: nat, cuts: set<nat>)
    requires StandsAt(s, Tag, t, at, cuts) && OpensComment(t, at, cuts)
    ensures Made(redirect, s, at, t[..3], cuts) == Markups(OPENING)
    ensures StandsAt(RunCut(redirect, s, at, t[..3], cuts), Comment, t[3..], at + 3, cuts)
  {
    hide RunCut, Made, EndsWith;
    assert t[..3] == [BANG, DASH] + [DASH] && [BANG] + [DASH] == [BANG, DASH];
    RunOn(redirect, s, at, [BANG, DASH], [DASH], cuts);
    RunOn(redirect, s, at, [BANG], [DASH], cuts);
    RunOne(redirect, s, at, BANG, cuts);
    var s1 := RunCut(redirect, s, at, [BANG], cuts);
    RunOne(redirect, s1, at + 1, DASH, cuts);
    var s2 := RunCut(redirect, s1, at + 1, [DASH], cuts);
    RunOne(redirect, s2, at + 2, DASH, cuts);
    LastTwo(s.buffer, BANG);
    LastTwo(s1.buffer, DASH);
  }

  // ----- the whole

  /** From wherever the parsers stand, they make the tokens that reading by descent makes. */
  lemma {:induction false} MadeIsRead(redirect: Redirect, s: Snapshot, m: Mode, t: Text, at: nat, cuts: set<nat>)
    requires StandsAt(s, m, t, at, cuts)
    ensures Made(redirect, s, at, t, cuts) == Reading(m, t, at, cuts)
    decreases |t|
  {
    hide RunCut, Made, StandsAt, FirstOf, ValueEnd, CommentEnd, OpensComment, Markups, SPACES, Reading, WORD_ENDS;
    hide IsValue, Ends, IsWord;
    match m
    case Words =>
      WordsReading(t, at, cuts);
      WordEnds(redirect, s, t, at, cuts);
      var e := FirstOf(t, WORD_ENDS);
      if e < |t| {
        Rest(redirect, s, t, e + 1, at, cuts);
        MadeIsRead(redirect, RunCut(redirect, s, at, t[..e + 1], cuts), AfterWord(t[e]), t[e + 1..], at + e + 1, cuts);
      }
    case Tag =>
      TagReading(t, at, cuts);
      if t == [] {
        MadeNothing(redirect, s, at, cuts);
      } else if OpensComment(t, at, cuts) {
        OpeningSize(t, at, cuts);
        OpeningIsRead(redirect, s, t, at, cuts);
        Rest(redirect, s, t, 3, at, cuts);
        MadeIsRead(redirect, RunCut(redirect, s, at, t[..3], cuts), Comment, t[3..], at + 3, cuts);
      } else {
        MarkupIsRead(redirect, s, t, at, cuts);
        Rest(redirect, s, t, 1, at, cuts);
        MadeIsRead(redirect, RunCut(redirect, s, at, t[..1], cuts), AfterMarkup(t[0]), t[1..], at + 1, cuts);
      }
    case Comment =>
      CommentReading(t, at, cuts);
      CommentIsRead(redirect, s, t, at, cuts);
      var e := CommentEnd(t, 0);
      if e < |t| {
        Rest(redirect, s, t, e + 1, at, cuts);
        MadeIsRead(redirect, RunCut(redirect, s, at, t[..e + 1], cuts), Words, t[e + 1..], at + e + 1, cuts);
      }
    case Attribute =>
      AttributeReading(t, at, cuts);
      ValueIsRead(redirect, s, t, at, cuts);
      var e := ValueEnd(t);
      if e < |t| {
        Rest(redirect, s, t, e + 1, at, cuts);
        MadeIsRead(redirect, RunCut(redirect, s, at, t[..e + 1], cuts), Tag, t[e + 1..], at + e + 1, cuts);
      }
  }

  /** The reading of each mode, up to where it goes on. */
  lemma WordsReading(t: Text, at: nat, cuts: set<nat>)
    ensures var e := FirstOf(t, WORD_ENDS);
      && (e == |t| ==> Reading(Words, t, at, cuts) == [])
      && (e < |t| && t[e] == LESS ==>
            Reading(Words, t, at, cuts) == [Word(t[..e], t[e])] + Reading(Tag, t[e + 1..], at + e + 1, cuts))
      && (e < |t| && t[e] != LESS ==>
            Reading(Words, t, at, cuts) == [Word(t[..e], t[e])] + Reading(Words, t[e + 1..], at + e + 1, cuts))
  {
    hide FirstOf, CommentEnd, ValueEnd, Markups, OpensComment, WORD_ENDS;
  }

  lemma TagReading(t: Text, at: nat, cuts: set<nat>)
    ensures if OpensComment(t, at, cuts) then
        3 <= |t| && Reading(Tag, t, at, cuts) == Markups(OPENING) + Reading(Comment, t[3..], at + 3, cuts)
      else
        Reading(Tag, t, at, cuts) ==
          if t == [] then [] else [Markup(t[0])] + Reading(AfterMarkup(t[0]), t[1..], at + 1, cuts)
  {
    hide Markups;
  }

  lemma CommentReading(t: Text, at: nat, cuts: set<nat>)
    ensures var e := CommentEnd(t, 0);
      Reading(Comment, t, at, cuts) ==
        if e == |t| then Markups(t) else Markups(t[..e + 1]) + Reading(Words, t[e + 1..], at + e + 1, cuts)
  {
    hide CommentEnd, Markups;
  }

  lemma AttributeReading(t: Text, at: nat, cuts: set<nat>)
    ensures var e := ValueEnd(t);
      Reading(Attribute, t, at, cuts) ==
        if e == |t| then [] else [Value(t[..e], t[e])] + Reading(Tag, t[e + 1..], at + e + 1, cuts)
  {
    hide ValueEnd;
  }

  lemma Rest(redirect: Redirect, s: Snapshot, t: Text, n: nat, at: nat, cuts: set<nat>)
    requires n <= |t|
    ensures Made(redirect, s, at, t, cuts) ==
      Made(redirect, s, at, t[..n], cuts) + Made(redirect, RunCut(redirect, s, at, t[..n], cuts), at + n, t[n..], cuts)
  {
    hide RunCut, Made;
    assert t == t[..n] + t[n..];
    RunOn(redirect, s, at, t[..n], t[n..], cuts);
  }

  lemma MadeNothing(redirect: Redirect, s: Snapshot, at: nat, cuts: set<nat>)
    ensures Made(redirect, s, at, [], cuts) == []
  {
  }

  lemma OpeningSize(t: Text, at: nat, cuts: set<nat>)
    ensures OpensComment(t, at, cuts) ==> 3 <= |t|
  {
  }

  /** A body is read by descent from its start. */
  lemma BodyIsRead(redirect: Redirect, t: Text, cuts: set<nat>)
    ensures Made(redirect, START, 0, t, cuts) == Reading(Words, t, 0, cuts)
  {
    MadeIsRead(redirect, START, Words, t, 0, cuts);
  }

  lemma {:induction false} NoCuts(redirect: Redirect, t: Text)
    ensures RunCut(redirect, START, 0, t, {}) == Run(redirect, START, t)
    ensures Made(redirect, START, 0, t, {}) == Tokens(redirect, t)
  {
    hide Step, TokensAfter;
    if t != [] {
      NoCuts(redirect, t[..|t| - 1]);
    }
  }

  /** A text parsed in one piece. */
  lemma TokensAreRead(redirect: Redirect, t: Text)
    ensures Tokens(redirect, t) == Reading(Words, t, 0, {})
  {
    NoCuts(redirect, t);
    BodyIsRead(redirect, t, {});
  }

  // ----- what is sent

  /** What the rewriter makes of a word or value: its answer, when it has one. Nothing that
  begins with `mailto:` is asked about. */
  function Answer(redirect: Redirect, text: Text): Option<Text> {
    if text == [] || Ascii("mailto:") <= text then None
    else if redirect(text) == None || redirect(text) == Some([]) then None
    else redirect(text)
  }

  /** A value before has an answer, and no tag has begun since. */
  ghost predicate WordsAsked(redirect: Redirect, ts: seq<Token>) {
    exists i :: 0 <= i < |ts| && ts[i].Value? && Answer(redirect, ts[i].text).Some? && NoTagBehind(ts, i)
  }

  predicate NoTagBehind(ts: seq<Token>, i: nat) {
    forall j :: i < j < |ts| ==> !(ts[j].Word? && ts[j].end == LESS)
  }

  lemma AnswerIs(redirect: Redirect, text: Text, ignore: bool)
    ensures Changed(redirect, text, false) == Answer(redirect, text).GetOr(text)
    ensures Changed(redirect, text, true) == text
    ensures Replacement(redirect, text, false) != [] <==> Answer(redirect, text).Some?
  {
    BytesSpelled();
  }

  lemma AskedIff(redirect: Redirect, ts: seq<Token>)
    ensures !Ignoring(redirect, ts) <==> WordsAsked(redirect, ts)
  {
    hide Ignoring, Replacement, Answer;
    OfferedIff(redirect, ts);
    forall i: nat | i < |ts|
      ensures Opens(redirect, ts, i) <==> ts[i].Value? && Answer(redirect, ts[i].text).Some? && NoTagBehind(ts, i)
    {
      if ts[i].Value? {
        AnswerIs(redirect, ts[i].text, false);
      }
    }
  }

  /** What is sent for each token: a value's answer, a word's when words are asked about, and
  everything else as it is. */
  lemma SentIs(redirect: Redirect, ts: seq<Token>, t: Token)
    ensures Render(redirect, []) == []
    ensures Render(redirect, ts + [t]) == Render(redirect, ts) +
      match t
      case Value(text, end) => Answer(redirect, text).GetOr(text) + [end]
      case Word(text, end) => (if WordsAsked(redirect, ts) then Answer(redirect, text).GetOr(text) else text) + [end]
      case Markup(b) => [b]
  {
    hide Answer, Ignoring, WordsAsked, Changed;
    Push(redirect, ts, t);
    AskedIff(redirect, ts);
    if !t.Markup? {
      AnswerIs(redirect, t.text, false);
    }
  }

  // ----- a comment, and a link

  lemma {:induction false} RenderMarkups(redirect: Redirect, ts: seq<Token>, m: Text)
    ensures Render(redirect, ts + Markups(m)) == Render(redirect, ts) + m
    decreases |m|
  {
    hide Render, Ignoring, Markups;
    MarkupsPush(m);
    if m == [] {
      assert ts + [] == ts;
    } else {
      var n, c := m[..|m| - 1], m[|m| - 1];
      RenderMarkups(redirect, ts, n);
      assert ts + (Markups(n) + [Markup(c)]) == (ts + Markups(n)) + [Markup(c)];
      Push(redirect, ts + Markups(n), Markup(c));
      assert Render(redirect, ts) + n + [c] == Render(redirect, ts) + m;
    }
  }

  lemma MarkupsPush(m: Text)
    ensures Markups([]) == []
    ensures m != [] ==> Markups(m) == Markups(m[..|m| - 1]) + [Markup(m[|m| - 1])]
  {
  }

  lemma {:induction false} NoDashes(t: Text)
    requires DASH !in t
    ensures Dashes(t) == 0
  {
    if t != [] {
      NoDashes(t[..|t| - 1]);
    }
  }

  /** A comment without dashes of its own ends at its `-->`, whatever tags it seems to have. */
  lemma CommentEndsLate(c: Text)
    requires DASH !in c
    ensures CommentEnd(c + [DASH, DASH, GREATER], 0) == |c| + 2
  {
    hide Dashes;
    var t := c + [DASH, DASH, GREATER];
    forall i | 0 <= i < |c|
      ensures !ClosesComment(t, i)
    {
      assert t[..i] == c[..i];
      NoDashes(c[..i]);
    }
    assert t[..|c|] == c && t[..|c| + 1] == c + [DASH] && t[..|c| + 2] == c + [DASH, DASH];
    NoDashes(c);
    OneMoreDash(c);
    OneMoreDash(c + [DASH]);
    assert c + [DASH] + [DASH] == c + [DASH, DASH];
    assert ClosesComment(t, |c| + 2);
  }

  lemma OneMoreDash(t: Text)
    ensures Dashes(t + [DASH]) == Dashes(t) + 1
  {
    assert (t + [DASH])[..|t|] == t;
  }

  /** `<!--`, anything without dashes, `-->`: whatever the rewriter, it is sent as it is. */
  lemma CommentIsKept(redirect: Redirect, c: Text)
    requires DASH !in c
    ensures var t := Ascii("<!--") + c + Ascii("-->");
      var ts := Reading(Words, t, 0, {});
      ts == [Word([], LESS)] + Markups(t[1..]) && Render(redirect, ts) == t
  {
    hide FirstOf, CommentEnd, Markups, Dashes, Render, Ascii;
    var t, rest := Ascii("<!--") + c + Ascii("-->"), c + [DASH, DASH, GREATER];
    assert Ascii("<!--") == [LESS] + OPENING && Ascii("-->") == [DASH, DASH, GREATER] by { CommentSpelled(); }
    assert t == [LESS] + (OPENING + rest);
    FirstIsHere(t);
    assert t[..0] == [] && t[1..] == OPENING + rest;
    assert (OPENING + rest)[3..] == rest;
    CommentEndsLate(c);
    assert rest[..|rest|] == rest && rest[|rest|..] == [];
    NothingRead();
    MarkupsJoin(OPENING, rest);
    assert Reading(Comment, rest, 4, {}) == Markups(rest) + [];
    assert OpensComment(OPENING + rest, 1, {});
    RenderMarkups(redirect, [Word([], LESS)], OPENING + rest);
    OneWord(redirect);
    assert [LESS] + (OPENING + rest) == t;
  }

  lemma CommentSpelled()
    ensures Ascii("<!--") == [LESS] + OPENING && Ascii("-->") == [DASH, DASH, GREATER]
  {
  }

  lemma FirstIsHere(t: Text)
    requires t != [] && t[0] == LESS
    ensures FirstOf(t, WORD_ENDS) == 0
  {
  }

  lemma NothingRead()
    ensures Reading(Words, [], 0, {}) == [] && FirstOf([], WORD_ENDS) == 0
    ensures forall at :: Reading(Words, [], at, {}) == [] && Reading(Tag, [], at, {}) == []
  {
  }

  lemma MarkupsJoin(a: Text, b: Text)
    ensures Markups(a + b) == Markups(a) + Markups(b)
  {
  }

  lemma OneWord(redirect: Redirect)
    ensures Render(redirect, [Word([], LESS)]) == [LESS]
  {
    Push(redirect, [], Word([], LESS));
    assert [] + [Word([], LESS)] == [Word([], LESS)];
  }

  /** `<a h="`, a value, `">`: the value with its first quote is offered, and the answer is sent. */
  lemma LinkIsOffered(redirect: Redirect, v: Text, w: Text)
    requires QUOTES[1] !in v && redirect([QUOTES[1]] + v) == Some(w) && w != []
    ensures var q := QUOTES[1];
      var ts := Reading(Words, Ascii("<a h=") + ([q] + v) + [q, GREATER], 0, {});
      && ts == [Word([], LESS)] + Markups(Ascii("a h=")) + [Value([q] + v, q)] + [Markup(GREATER)]
      && Render(redirect, ts) == Ascii("<a h=") + w + [q, GREATER]
  {
    hide FirstOf, ValueEnd, Markups, Render, Reading, Ascii;
    var q := QUOTES[1];
    var value := [q] + v;
    var rest := value + [q, GREATER];
    var m: Text := [97, 32, 104, EQUALS];
    assert Ascii("a h=") == m && Ascii("<a h=") == [LESS] + m by { TagSpelled(); }
    var t := Ascii("<a h=") + value + [q, GREATER];
    assert t == [LESS] + (m + rest);
    FirstIsHere(t);
    WordsReading(t, 0, {});
    assert t[..0] == [] && t[1..] == m + rest;
    TagIsRead(rest);
    ValueAndEnd(q, v);
    LinkSent(redirect, value, q, w, m);
    assert [Word([], LESS)] + (Markups(m) + ([Value(value, q)] + [Markup(GREATER)])) ==
      [Word([], LESS)] + Markups(m) + [Value(value, q)] + [Markup(GREATER)];
  }

  lemma TagSpelled()
    ensures Ascii("a h=") == [97, 32, 104, EQUALS] && Ascii("<a h=") == [LESS] + [97, 32, 104, EQUALS]
  {
  }

  lemma TagIsRead(rest: Text)
    ensures var m: Text := [97, 32, 104, EQUALS];
      Reading(Tag, m + rest, 1, {}) == Markups(m) + Reading(Attribute, rest, 5, {})
  {
    hide Reading, Markups;
    var m: Text := [97, 32, 104, EQUALS];
    assert m + rest == [97] + ([32] + ([104] + ([EQUALS] + rest)));
    TagByte(97, [32] + ([104] + ([EQUALS] + rest)), 1);
    TagByte(32, [104] + ([EQUALS] + rest), 2);
    TagByte(104, [EQUALS] + rest, 3);
    TagByte(EQUALS, rest, 4);
    MarkupList(97, 32, 104, EQUALS);
  }

  lemma ValueAndEnd(q: byte, v: Text)
    requires q in QUOTES && q !in v
    ensures Reading(Attribute, [q] + v + [q, GREATER], 5, {}) == [Value([q] + v, q)] + [Markup(GREATER)]
  {
    hide Reading, ValueEnd, IsValue, Ends;
    var rest := [q] + v + [q, GREATER];
    AttributeReading(rest, 5, {});
    QuotedEnd(q, v, [GREATER]);
    assert rest == [q] + v + [q] + [GREATER];
    assert rest[..|v| + 1] == [q] + v && rest[|v| + 2..] == [GREATER] && rest[|v| + 1] == q;
    TagByte(GREATER, [], 5 + |v| + 2);
    assert [GREATER] + [] == [GREATER];
    NothingRead();
  }

  lemma TagByte(c: byte, t: Text, at: nat)
    requires c != BANG
    ensures Reading(Tag, [c] + t, at, {}) == [Markup(c)] + Reading(AfterMarkup(c), t, at + 1, {})
  {
    assert ([c] + t)[1..] == t;
    assert ([c] + t)[0] == c;
  }

  lemma {:induction false} FirstAt(t: Text, q: byte, rest: Text)
    requires q !in t
    ensures FirstOf(t + [q] + rest, [q]) == |t|
    decreases |t|
  {
    if t != [] {
      FirstAt(t[1..], q, rest);
      assert (t + [q] + rest)[1..] == t[1..] + [q] + rest;
    }
  }

  lemma QuotedEnd(q: byte, v: Text, rest: Text)
    requires q in QUOTES && q !in v
    ensures ValueEnd([q] + v + [q] + rest) == |v| + 1
  {
    FirstAt(v, q, rest);
    assert ([q] + v + [q] + rest)[1..] == v + [q] + rest;
  }

  lemma MarkupList(a: byte, b: byte, c: byte, d: byte)
    ensures Markups([a, b, c, d]) == [Markup(a), Markup(b), Markup(c), Markup(d)]
  {
  }

  lemma LinkSent(redirect: Redirect, value: Text, q: byte, w: Text, m: Text)
    requires redirect(value) == Some(w) && w != [] && value != [] && value[0] == q && q in QUOTES
    ensures Render(redirect, [Word([], LESS)] + Markups(m) + [Value(value, q)] + [Markup(GREATER)]) ==
      [LESS] + m + w + [q, GREATER]
  {
    hide Render, Ignoring, Markups;
    var ts := [Word([], LESS)] + Markups(m);
    OneWord(redirect);
    RenderMarkups(redirect, [Word([], LESS)], m);
    Push(redirect, ts, Value(value, q));
    Push(redirect, ts + [Value(value, q)], Markup(GREATER));
    assert !(MAILTO <= value);
    assert [LESS] + m + (w + [q]) + [GREATER] == [LESS] + m + w + [q, GREATER];
  }
}
