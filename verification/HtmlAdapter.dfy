/** The parsers of the incremental rewriter of HTML bodies as a machine over bytes
(`squid/src/helpers/ecap_logic_reply.py`). Its bytes are only compared for equality, so the
signed ones of the C code serve as well. */
module HtmlAdapter {
  import opened Bytes
  import opened Wrappers

  const SPACES: Text := [32, 9, 11, 10, 13, 12]
  const LESS: byte := 60
  const GREATER: byte := 62
  const EQUALS: byte := 61
  const DASH: byte := 45
  const BANG: byte := 33
  const QUOTES: Text := [39, 34]
  const DELIM: Text := SPACES + [GREATER]
  const MAILTO: Text := [109, 97, 105, 108, 116, 111, 58]
  const ACCUM_LIMIT: nat := 512

  lemma BytesSpelled()
    ensures SPACES == Ascii(" \t\U{0B}\n\r\U{0C}") && DELIM == SPACES + Ascii(">") && QUOTES == Ascii("'\"")
    ensures MAILTO == Ascii("mailto:") && [LESS, BANG, DASH, GREATER] == Ascii("<!->") && [EQUALS] == Ascii("=")
    ensures ACCUM_LIMIT == 512
  {
  }

  /** `do_all_redirects`: Python's None, or bytes. */
  type Redirect = Text -> Option<Text>

  /** `partial_change`. */
  function PartialChange(redirect: Redirect, chunk: Text, ignore: bool): Option<Text> {
    if ignore || MAILTO <= chunk || chunk == [] then None else redirect(chunk)
  }

  /** The parsers take None and no bytes alike. */
  function Replacement(redirect: Redirect, chunk: Text, ignore: bool): Text {
    PartialChange(redirect, chunk, ignore).GetOr([])
  }

  /** What is sent for a chunk. */
  function Changed(redirect: Redirect, chunk: Text, ignore: bool): Text {
    var ab := Replacement(redirect, chunk, ignore);
    if ab != [] then ab else chunk
  }

  /** A body is a sequence of words between tags, attribute values, each with the byte
  that ends it, and other bytes of tags and comments. */
  datatype Token = Word(text: Text, end: byte) | Value(text: Text, end: byte) | Markup(b: byte) {

    predicate WellFormed() {
      match this
      case Word(text, end) => IsWord(text) && (end in SPACES || end == LESS)
      case Value(text, end) => IsValue(text) && end in Ends(text)
      case Markup(_) => true
    }

    function Source(): Text {
      match this
      case Word(text, end) => text + [end]
      case Value(text, end) => text + [end]
      case Markup(b) => [b]
    }
  }

  predicate IsWord(text: Text) {
    forall i :: 0 <= i < |text| ==> text[i] !in SPACES && text[i] != LESS
  }

  /** What ends the value that begins so: the same quote, or a space or the tag's end. */
  function Ends(text: Text): Text {
    if text != [] && text[0] in QUOTES then [text[0]] else DELIM
  }

  predicate IsValue(text: Text) {
    && (text != [] ==> text[0] !in DELIM)
    && (forall i :: 0 < i < |text| ==> text[i] !in Ends(text))
  }

  /** The first byte decides what ends a value; the others only make it longer. */
  lemma ValueGrows(text: Text, head: byte)
    requires IsValue(text) && head !in Ends(text)
    ensures IsValue(text + [head])
    ensures Ends(text + [head]) == if text != [] then Ends(text) else if head in QUOTES then [head] else DELIM
  {
  }

  lemma NoValueYet()
    ensures IsValue([]) && Ends([]) == DELIM
  {
  }

  function Source(ts: seq<Token>): Text {
    if ts == [] then [] else Source(ts[..|ts| - 1]) + ts[|ts| - 1].Source()
  }

  /** Whether the words behind a token are left alone, given whether those before it were. */
  predicate IgnoringAfter(redirect: Redirect, t: Token, before: bool) {
    match t
    case Word(_, end) => end == LESS || before
    case Value(text, _) => Replacement(redirect, text, false) == [] && before
    case Markup(_) => before
  }

  predicate Ignoring(redirect: Redirect, ts: seq<Token>) {
    if ts == [] then true
    else IgnoringAfter(redirect, ts[|ts| - 1], Ignoring(redirect, ts[..|ts| - 1]))
  }

  function RenderToken(redirect: Redirect, t: Token, ignoring: bool): Text {
    match t
    case Word(text, end) => Changed(redirect, text, ignoring) + [end]
    case Value(text, end) => Changed(redirect, text, false) + [end]
    case Markup(b) => [b]
  }

  /** What is sent for the tokens. */
  function Render(redirect: Redirect, ts: seq<Token>): Text {
    if ts == [] then [] else
    var before := ts[..|ts| - 1];
    Render(redirect, before) + RenderToken(redirect, ts[|ts| - 1], Ignoring(redirect, before))
  }

  lemma Push(redirect: Redirect, ts: seq<Token>, t: Token)
    ensures Source(ts + [t]) == Source(ts) + t.Source()
    ensures Ignoring(redirect, ts + [t]) == IgnoringAfter(redirect, t, Ignoring(redirect, ts))
    ensures Render(redirect, ts + [t]) == Render(redirect, ts) + RenderToken(redirect, t, Ignoring(redirect, ts))
  {
    assert (ts + [t])[..|ts|] == ts;
  }

  /** A rewriter that changes nothing. */
  ghost predicate IsIdentity(redirect: Redirect) {
    forall t :: redirect(t) == Some(t) || redirect(t) == None || redirect(t) == Some([])
  }

  lemma {:induction false} IdentityRendersSource(redirect: Redirect, ts: seq<Token>)
    requires IsIdentity(redirect)
    ensures Render(redirect, ts) == Source(ts)
  {
    if ts != [] {
      IdentityRendersSource(redirect, ts[..|ts| - 1]);
    }
  }

  /** The `i`th token is a value that has been changed, and no tag begins behind it. */
  predicate Opens(redirect: Redirect, ts: seq<Token>, i: nat) {
    && i < |ts| && ts[i].Value? && Replacement(redirect, ts[i].text, false) != []
    && (forall j :: i < j < |ts| ==> !(ts[j].Word? && ts[j].end == LESS))
  }

  /** A word is offered to the rewriter exactly when a value before it has been changed and
  no tag has begun since. */
  lemma {:induction false} OfferedIff(redirect: Redirect, ts: seq<Token>)
    ensures !Ignoring(redirect, ts) <==> exists i :: Opens(redirect, ts, i)
  {
    if ts != [] {
      var n := |ts| - 1;
      var before := ts[..n];
      OfferedIff(redirect, before);
      forall i | 0 <= i < n
        ensures Opens(redirect, ts, i) <==> Opens(redirect, before, i) && !(ts[n].Word? && ts[n].end == LESS)
      {
        assert forall j :: 0 <= j < n ==> before[j] == ts[j];
      }
      if ts[n].Value? && Replacement(redirect, ts[n].text, false) != [] {
        assert Opens(redirect, ts, n);
      }
      assert forall i: nat :: Opens(redirect, before, i) ==> i < n;
    }
  }

  datatype Adaptation = Unknown | OutsideTag | InsideTag | InsideAttribute | InsideComment

  /** A Python value: indexing bytes gives a number, a literal is bytes. */
  datatype PyValue = Number(n: byte) | Literal(bytes: Text)

  const BACKSLASH: Text := [92]

  /** The dictionary's parser part. */
  datatype Snapshot = Snapshot(ignoreText: bool, adaptation: Adaptation, buffer: Text, contextAtrb: Text,
                               contextText: Text, adaptationWait: Option<Text>, stage: nat)

  const START := Snapshot(true, Unknown, [], [], [], None, 0)

  predicate EndsWith(t: Text, w: Text) {
    |w| <= |t| && t[|t| - |w|..] == w
  }

  /** One byte. `honoured` is how the escape tests were meant: the byte before counts. */
  function Step(redirect: Redirect, s: Snapshot, head: byte, honoured: bool): Snapshot {
    match s.adaptation
    case InsideTag => TagStep(s, head, honoured)
    case InsideComment => CommentStep(s, head)
    case InsideAttribute => AttributeStep(redirect, s, head, honoured)
    case _ => OutsideStep(redirect, s, head)
  }

  function OutsideStep(redirect: Redirect, s: Snapshot, head: byte): Snapshot {
    if head in SPACES || head == LESS then
      s.(buffer := s.buffer + Changed(redirect, s.contextText, s.ignoreText) + [head], contextText := [],
         ignoreText := head == LESS || s.ignoreText,
         adaptation := if head == LESS then InsideTag else s.adaptation)
    else s.(contextText := s.contextText + [head])
  }

  function TagStep(s: Snapshot, head: byte, honoured: bool): Snapshot {
    var t := s.(buffer := s.buffer + [head]);
    if honoured && EndsWith(s.buffer, BACKSLASH) then t
    else if head == DASH && EndsWith(s.buffer, [BANG, DASH]) then t.(adaptation := InsideComment, stage := 0)
    else if head == GREATER then t.(adaptation := OutsideTag)
    else if head == EQUALS then t.(adaptation := InsideAttribute)
    else t
  }

  function CommentStep(s: Snapshot, head: byte): Snapshot {
    var t := s.(buffer := s.buffer + [head]);
    if s.stage <= 1 && head == DASH then t.(stage := s.stage + 1)
    else if s.stage == 2 && head == GREATER then t.(adaptation := OutsideTag)
    else t
  }

  function AttributeStep(redirect: Redirect, s: Snapshot, head: byte, honoured: bool): Snapshot {
    if !(honoured && EndsWith(s.buffer, BACKSLASH)) && head in s.adaptationWait.GetOr(DELIM) then
      s.(buffer := s.buffer + Changed(redirect, s.contextAtrb, false) + [head], contextAtrb := [],
         ignoreText := Replacement(redirect, s.contextAtrb, false) == [] && s.ignoreText,
         adaptation := InsideTag, adaptationWait := None)
    else
      s.(contextAtrb := s.contextAtrb + [head],
         adaptationWait := if s.adaptationWait == None && s.contextAtrb == []
            then Some(Ends([head])) else s.adaptationWait)
  }

  /** What a byte adds to the tokens. */
  function TokensAfter(s: Snapshot, ts: seq<Token>, head: byte): seq<Token> {
    match s.adaptation
    case InsideTag => ts + [Markup(head)]
    case InsideComment => ts + [Markup(head)]
    case InsideAttribute => if head in s.adaptationWait.GetOr(DELIM) then ts + [Value(s.contextAtrb, head)] else ts
    case _ => if head in SPACES || head == LESS then ts + [Word(s.contextText, head)] else ts
  }

  ghost predicate Standing(s: Snapshot) {
    && (s.contextText != [] ==> s.adaptation.Unknown? || s.adaptation.OutsideTag?)
    && (s.contextAtrb != [] ==> s.adaptation.InsideAttribute?)
    && (s.adaptationWait == if s.contextAtrb == [] then None else Some(Ends(s.contextAtrb)))
    && IsWord(s.contextText) && IsValue(s.contextAtrb)
    && (s.adaptation.InsideAttribute? ==> s.buffer == [] || EndsWith(s.buffer, [EQUALS]))
  }

  /** The tokens account for everything parsed and for everything sent or ready to be. */
  ghost predicate Accounted(redirect: Redirect, s: Snapshot, ts: seq<Token>, sent: Text) {
    && Standing(s)
    && (forall i :: 0 <= i < |ts| ==> ts[i].WellFormed())
    && s.ignoreText == Ignoring(redirect, ts)
    && sent + s.buffer == Render(redirect, ts)
  }

  function Parsed(s: Snapshot, ts: seq<Token>): Text {
    Source(ts) + s.contextAtrb + s.contextText
  }

  lemma OutsideKeeps(redirect: Redirect, s: Snapshot, ts: seq<Token>, sent: Text, head: byte)
    requires Accounted(redirect, s, ts, sent) && (s.adaptation.Unknown? || s.adaptation.OutsideTag?)
    ensures var (t, us) := (OutsideStep(redirect, s, head), TokensAfter(s, ts, head));
      Accounted(redirect, t, us, sent) && Parsed(t, us) == Parsed(s, ts) + [head]
  {
    hide Source, Render, Ignoring, Replacement, IsValue, Ends, EndsWith;
    Push(redirect, ts, Word(s.contextText, head));
    assert Word(s.contextText, head).Source() == s.contextText + [head];
  }

  lemma MarkupKeeps(redirect: Redirect, s: Snapshot, ts: seq<Token>, sent: Text, head: byte)
    requires Accounted(redirect, s, ts, sent) && (s.adaptation.InsideTag? || s.adaptation.InsideComment?)
    ensures var (t, us) := (Step(redirect, s, head, false), ts + [Markup(head)]);
      Accounted(redirect, t, us, sent) && Parsed(t, us) == Parsed(s, ts) + [head]
  {
    hide Source, Render, Ignoring, Replacement, IsValue, IsWord, Ends;
    Push(redirect, ts, Markup(head));
  }

  lemma ValueEnds(redirect: Redirect, s: Snapshot, ts: seq<Token>, sent: Text, head: byte)
    requires Accounted(redirect, s, ts, sent) && s.adaptation.InsideAttribute? && head in Ends(s.contextAtrb)
    ensures var (t, us) := (AttributeStep(redirect, s, head, false), ts + [Value(s.contextAtrb, head)]);
      && us == TokensAfter(s, ts, head)
      && Accounted(redirect, t, us, sent) && Parsed(t, us) == Parsed(s, ts) + [head]
  {
    hide Source, Render, Ignoring, Replacement, Changed, IsWord, IsValue, Ends, EndsWith;
    NoValueYet();
    Push(redirect, ts, Value(s.contextAtrb, head));
  }

  lemma ValueGoesOn(redirect: Redirect, s: Snapshot, ts: seq<Token>, sent: Text, head: byte)
    requires Accounted(redirect, s, ts, sent) && s.adaptation.InsideAttribute? && head !in Ends(s.contextAtrb)
    ensures var t := AttributeStep(redirect, s, head, false);
      && ts == TokensAfter(s, ts, head)
      && Accounted(redirect, t, ts, sent) && Parsed(t, ts) == Parsed(s, ts) + [head]
  {
    hide Source, Render, Ignoring, Replacement, Changed, IsWord, IsValue, Ends, EndsWith, Token.WellFormed;
    NoValueYet();
    ValueGrows(s.contextAtrb, head);
    assert s.contextAtrb == [] ==> s.contextAtrb + [head] == [head];
  }

  lemma StepKeeps(redirect: Redirect, s: Snapshot, ts: seq<Token>, sent: Text, head: byte)
    requires Accounted(redirect, s, ts, sent)
    ensures var (t, us) := (Step(redirect, s, head, false), TokensAfter(s, ts, head));
      Accounted(redirect, t, us, sent) && Parsed(t, us) == Parsed(s, ts) + [head]
  {
    hide Accounted, Parsed, OutsideStep, AttributeStep;
    if s.adaptation.InsideTag? || s.adaptation.InsideComment? {
      MarkupKeeps(redirect, s, ts, sent, head);
    } else if s.adaptation.InsideAttribute? {
      if head in Ends(s.contextAtrb) {
        ValueEnds(redirect, s, ts, sent, head);
      } else {
        ValueGoesOn(redirect, s, ts, sent, head);
      }
    } else {
      OutsideKeeps(redirect, s, ts, sent, head);
    }
  }

  // ----- what the escape tests and `>` do

  lemma LastOf(t: Text, w: Text)
    requires w != []
    ensures EndsWith(t, w) ==> t != [] && t[|t| - 1] == w[|w| - 1]
  {
    assert EndsWith(t, w) ==> t[|t| - |w|..][|w| - 1] == t[|t| - 1];
  }

  /** Inside a tag the escape test would matter exactly for a `>` or `=` behind a backslash. */
  lemma TagEscapeMattersIff(redirect: Redirect, s: Snapshot, head: byte)
    requires s.adaptation.InsideTag?
    ensures Step(redirect, s, head, true) != Step(redirect, s, head, false) <==>
      EndsWith(s.buffer, BACKSLASH) && (head == GREATER || head == EQUALS)
  {
    LastOf(s.buffer, BACKSLASH);
    LastOf(s.buffer, [BANG, DASH]);
  }

  /** Inside an attribute it would never matter: it looks at the byte before the value. */
  lemma AttributeEscapeIsIdle(redirect: Redirect, s: Snapshot, head: byte)
    requires Standing(s) && s.adaptation.InsideAttribute?
    ensures Step(redirect, s, head, true) == Step(redirect, s, head, false)
  {
  }

  function Run(redirect: Redirect, s: Snapshot, t: Text): Snapshot {
    if t == [] then s else Step(redirect, Run(redirect, s, t[..|t| - 1]), t[|t| - 1], false)
  }

  lemma RunPush(redirect: Redirect, s: Snapshot, t: Text, head: byte)
    ensures Run(redirect, s, t + [head]) == Step(redirect, Run(redirect, s, t), head, false)
  {
    assert (t + [head])[..|t|] == t;
  }

  /** The tokens that the parsers have made of a text. */
  function Tokens(redirect: Redirect, t: Text): seq<Token> {
    if t == [] then []
    else
      var before := t[..|t| - 1];
      TokensAfter(Run(redirect, START, before), Tokens(redirect, before), t[|t| - 1])
  }

  /** Everything parsed from the start is accounted for. */
  lemma {:induction false} RunAccounts(redirect: Redirect, t: Text)
    ensures var (s, ts) := (Run(redirect, START, t), Tokens(redirect, t));
      Accounted(redirect, s, ts, []) && Parsed(s, ts) == t
  {
    hide Accounted, Step, TokensAfter, Parsed;
    if t == [] {
      NothingParsed(redirect);
    } else {
      var before := t[..|t| - 1];
      RunAccounts(redirect, before);
      StepKeeps(redirect, Run(redirect, START, before), Tokens(redirect, before), [], t[|t| - 1]);
    }
  }

  lemma NothingParsed(redirect: Redirect)
    ensures Accounted(redirect, START, [], []) && Parsed(START, []) == []
  {
  }

  /** In which part of a tag a byte falls. */
  predicate InTag(s: Snapshot) {
    s.adaptation.InsideTag? || s.adaptation.InsideAttribute?
  }

  /** In every text, a `>` that is read inside a tag or one of its attributes ends the tag
  exactly when it is a token of its own; when it ends a value instead, the parser goes on in
  the tag; and it is one of these three: a token, the end of a value, a byte of a value. */
  lemma GreaterLeavesTagIff(redirect: Redirect, t: Text)
    requires InTag(Run(redirect, START, t))
    ensures var (s, ts) := (Run(redirect, START, t), Tokens(redirect, t));
      var (now, us) := (Run(redirect, START, t + [GREATER]), Tokens(redirect, t + [GREATER]));
      && (now.adaptation == OutsideTag <==> us == ts + [Markup(GREATER)])
      && (now.adaptation == InsideTag <==> us == ts + [Value(s.contextAtrb, GREATER)])
      && (now.adaptation == InsideAttribute <==> us == ts && now.contextAtrb == s.contextAtrb + [GREATER])
      && (now.adaptation == OutsideTag || now.adaptation == InsideTag || now.adaptation == InsideAttribute)
      && Source(ts) + s.contextAtrb == t
  {
    hide Run, Tokens, Source;
    RunAccounts(redirect, t);
    RunPush(redirect, START, t, GREATER);
    assert (t + [GREATER])[..|t|] == t;
    TokensPush(redirect, t, GREATER);
    GreaterStep(redirect, Run(redirect, START, t), Tokens(redirect, t));
    var s := Run(redirect, START, t);
    NoWord(s, Tokens(redirect, t));
  }

  lemma TokensPush(redirect: Redirect, t: Text, head: byte)
    ensures Tokens(redirect, t + [head]) == TokensAfter(Run(redirect, START, t), Tokens(redirect, t), head)
  {
    hide TokensAfter, Run;
    assert (t + [head])[..|t|] == t;
  }

  lemma NoWord(s: Snapshot, ts: seq<Token>)
    requires Standing(s) && InTag(s)
    ensures Parsed(s, ts) == Source(ts) + s.contextAtrb
  {
    hide Source;
  }

  lemma GreaterStep(redirect: Redirect, s: Snapshot, ts: seq<Token>)
    requires Standing(s) && InTag(s)
    ensures var (now, us) := (Step(redirect, s, GREATER, false), TokensAfter(s, ts, GREATER));
      && (now.adaptation == OutsideTag <==> us == ts + [Markup(GREATER)])
      && (now.adaptation == InsideTag <==> us == ts + [Value(s.contextAtrb, GREATER)])
      && (now.adaptation == InsideAttribute <==> us == ts && now.contextAtrb == s.contextAtrb + [GREATER])
      && (now.adaptation == OutsideTag || now.adaptation == InsideTag || now.adaptation == InsideAttribute)
  {
    NoValueYet();
    LastOf(s.buffer, [BANG, DASH]);
    assert |ts + [Markup(GREATER)]| == |ts + [Value(s.contextAtrb, GREATER)]| == |ts| + 1;
    assert (ts + [Markup(GREATER)])[|ts|] != (ts + [Value(s.contextAtrb, GREATER)])[|ts|];
  }

  /** `<a=>` leaves the parser in the tag; `<a\>` does not, though its `>` is escaped. */
  lemma TwoTags(redirect: Redirect)
    ensures Run(redirect, START, [LESS, 97, EQUALS, GREATER]).adaptation == InsideTag
    ensures Run(redirect, START, [LESS, 97, 92, GREATER]).adaptation == OutsideTag
    ensures Step(redirect, Run(redirect, START, [LESS, 97, 92]), GREATER, true).adaptation == InsideTag
  {
    hide Run;
    RunNothing(redirect, START);
    var open := Step(redirect, Step(redirect, START, LESS, false), 97, false);
    RunPush(redirect, START, [], LESS);
    RunPush(redirect, START, [LESS], 97);
    assert [] + [LESS] == [LESS] && [LESS] + [97] == [LESS, 97];
    assert open == Snapshot(true, InsideTag, [LESS, 97], [], [], None, 0);
    RunPush(redirect, START, [LESS, 97], EQUALS);
    RunPush(redirect, START, [LESS, 97, EQUALS], GREATER);
    assert [LESS, 97] + [EQUALS] == [LESS, 97, EQUALS] && [LESS, 97, EQUALS] + [GREATER] == [LESS, 97, EQUALS, GREATER];
    RunPush(redirect, START, [LESS, 97], 92);
    RunPush(redirect, START, [LESS, 97, 92], GREATER);
    assert [LESS, 97] + [92] == [LESS, 97, 92] && [LESS, 97, 92] + [GREATER] == [LESS, 97, 92, GREATER];
  }

  lemma RunNothing(redirect: Redirect, s: Snapshot)
    ensures Run(redirect, s, []) == s
  {
  }
}
