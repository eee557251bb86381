/** The shared dictionary of the eCAP helper and the calls that rewrite a body
(`squid/src/helpers/ecap_logic_reply.py`). */
module EcapReply {
  import opened Bytes
  import opened Wrappers
  import opened Sequences
  import opened HtmlAdapter
  import opened HtmlReading

  /** The state and the tokens are those of the parsers on `done`, with what they made sent off
  at the cuts. */
  ghost predicate Traced(redirect: Redirect, s: Snapshot, ts: seq<Token>, done: Text, cuts: set<nat>) {
    && s == RunCut(redirect, START, 0, done, cuts) && ts == Made(redirect, START, 0, done, cuts)
    && forall c :: c in cuts ==> c <= |done|
  }

  lemma TracedStart(redirect: Redirect)
    ensures Traced(redirect, START, [], [], {})
  {
  }

  lemma TracedStep(redirect: Redirect, s: Snapshot, ts: seq<Token>, done: Text, cuts: set<nat>, head: byte)
    requires Traced(redirect, s, ts, done, cuts)
    ensures Traced(redirect, Step(redirect, s, head, false), TokensAfter(s, ts, head), done + [head], cuts)
  {
    hide RunCut, Made, Step, TokensAfter;
    RunOn(redirect, START, 0, done, [head], cuts);
    RunOne(redirect, s, |done|, head, cuts);
    TokensJoin(s, ts, [], head);
    assert ts + [] == ts;
  }

  /** A cut changes nothing before it. */
  lemma {:induction false} CutsAgree(redirect: Redirect, t: Text, cuts: set<nat>, more: set<nat>)
    requires forall c :: c in more && c !in cuts ==> |t| <= c
    requires cuts <= more
    ensures Made(redirect, START, 0, t, cuts) == Made(redirect, START, 0, t, more)
    ensures (|t| in cuts || |t| !in more) ==> RunCut(redirect, START, 0, t, cuts) == RunCut(redirect, START, 0, t, more)
    decreases |t|
  {
    hide Step, TokensAfter;
    if t != [] {
      CutsAgree(redirect, t[..|t| - 1], cuts, more);
    }
  }

  lemma TracedFlush(redirect: Redirect, s: Snapshot, ts: seq<Token>, done: Text, cuts: set<nat>)
    requires Traced(redirect, s, ts, done, cuts)
    ensures Traced(redirect, s.(buffer := []), ts, done, cuts + {|done|})
  {
    hide Step, TokensAfter;
    var more := cuts + {|done|};
    CutsAgree(redirect, done, cuts, more);
    if done != [] {
      CutsAgree(redirect, done[..|done| - 1], cuts, more);
    }
  }

  /** How many bytes wait after the calls for these chunks. */
  function Waiting(chunks: seq<Text>): nat {
    if chunks == [] then 0
    else
      var n := Waiting(chunks[..|chunks| - 1]) + |chunks[|chunks| - 1]|;
      if n < ACCUM_LIMIT then n else 0
  }

  /** The places of the body where what was made was sent off, before its end. */
  function FlushPlaces(chunks: seq<Text>): set<nat> {
    if chunks == [] then {}
    else
      var before := chunks[..|chunks| - 1];
      FlushPlaces(before) +
        (if Waiting(before) + |chunks[|chunks| - 1]| < ACCUM_LIMIT then {} else {|Concat(chunks)|})
  }

  lemma PlacesPush(chunks: seq<Text>, i: nat)
    requires i < |chunks|
    ensures var n := Waiting(chunks[..i]) + |chunks[i]|;
      && Waiting(chunks[..i + 1]) == (if n < ACCUM_LIMIT then n else 0)
      && FlushPlaces(chunks[..i + 1]) ==
        FlushPlaces(chunks[..i]) + (if n < ACCUM_LIMIT then {} else {|Concat(chunks[..i + 1])|})
  {
    hide Concat;
    assert chunks[..i + 1][..i] == chunks[..i];
  }

  class State {
    const redirect: Redirect
    const html: bool
    var ignoreText: bool
    var adaptation: Adaptation
    var buffer: Text
    var contextAtrb: Text
    var contextText: Text
    var accum: Text
    var adaptationWait: Option<Text>
    var stage: nat
    ghost var tokens: seq<Token>  // everything parsed so far
    ghost var sent: Text          // everything returned so far
    ghost var cuts: set<nat>      // how much had been parsed at each time

    ghost function Snap(): Snapshot
      reads this
    {
      Snapshot(ignoreText, adaptation, buffer, contextAtrb, contextText, adaptationWait, stage)
    }

    ghost predicate Valid()
      reads this
    {
      Accounted(redirect, Snap(), tokens, sent) && Traced(redirect, Snap(), tokens, Done(), cuts)
    }

    /** The bytes parsed so far. */
    ghost function Done(): Text
      reads this
    {
      Parsed(Snap(), tokens)
    }

    constructor (redirect: Redirect, html: bool)
      ensures Valid() && this.redirect == redirect && this.html == html && Snap() == START
      ensures tokens == [] && sent == [] && accum == [] && Done() == [] && cuts == {}
    {
      this.redirect, this.html := redirect, html;
      ignoreText, adaptation, buffer, contextAtrb, contextText, accum := true, Unknown, [], [], [], [];
      adaptationWait, stage := None, 0;
      tokens, sent, cuts := [], [], {};
      new;
      TracedStart(redirect);
    }

    method OutsideParser(head: byte)
      requires adaptation.Unknown? || adaptation.OutsideTag?
      modifies this`ignoreText, this`adaptation, this`buffer, this`contextText
      ensures Snap() == Step(redirect, old(Snap()), head, false)
    {
      var ignore := ignoreText;
      if head in SPACES + [LESS] {
        var ab := PartialChange(redirect, contextText, ignore);
        if ab.Some? && ab.value != [] {
          buffer := buffer + (ab.value + [head]);
        } else {
          buffer := buffer + (contextText + [head]);
        }
        contextText := [];
        if head == LESS {
          ignoreText := true;
          adaptation := InsideTag;
        }
      } else {
        contextText := contextText + [head];
      }
    }

    method InsideParser(head: byte)
      requires adaptation.InsideTag?
      modifies this`adaptation, this`buffer, this`stage
      ensures Snap() == Step(redirect, old(Snap()), head, false)
    {
      buffer := buffer + [head];
      var lsb := |buffer|;
      if lsb < 2 || Number(buffer[lsb - 2]) != Literal(BACKSLASH) {
        if head == DASH && lsb >= 3 && buffer[lsb - 2] == DASH && buffer[lsb - 3] == BANG {
          adaptation := InsideComment;
          stage := 0;
        } else if head == GREATER {
          adaptation := OutsideTag;
        } else if head == EQUALS {
          adaptation := InsideAttribute;
        }
      }
    }

    method IgnoreComment(head: byte)
      requires adaptation.InsideComment?
      modifies this`adaptation, this`buffer, this`stage
      ensures Snap() == Step(redirect, old(Snap()), head, false)
    {
      buffer := buffer + [head];
      if stage in [0, 1] && head == DASH {
        stage := stage + 1;
      } else if stage == 2 && head == GREATER {
        adaptation := OutsideTag;
      }
    }

    method AttributeParser(head: byte)
      requires adaptation.InsideAttribute? && (contextAtrb == [] <==> adaptationWait == None)
      modifies this`ignoreText, this`adaptation, this`buffer, this`contextAtrb, this`adaptationWait
      ensures Snap() == Step(redirect, old(Snap()), head, false)
    {
      var waiting := adaptationWait.GetOr(DELIM);
      if (|buffer| < 1 || Number(buffer[|buffer| - 1]) != Literal(BACKSLASH)) && head in waiting {
        var ab := PartialChange(redirect, contextAtrb, false);
        if ab.Some? && ab.value != [] {
          buffer := buffer + (ab.value + [head]);
          ignoreText := false;
        } else {
          buffer := buffer + (contextAtrb + [head]);
        }
        contextAtrb := [];
        adaptation := InsideTag;
        adaptationWait := None;
        return;
      }
      contextAtrb := contextAtrb + [head];
      if adaptationWait == None && |contextAtrb| == 1 {
        assert contextAtrb == [head];
        if contextAtrb[0] in QUOTES {
          adaptationWait := Some(contextAtrb);
        } else {
          adaptationWait := Some(DELIM);
        }
      }
    }

    /** One byte goes to the parser of the current mode. */
    method ParseByte(head: byte)
      requires Valid()
      modifies this`ignoreText, this`adaptation, this`buffer, this`contextAtrb, this`contextText, this`adaptationWait
      modifies this`stage, this`tokens
      ensures Valid() && Done() == old(Done()) + [head] && Snap() == Step(redirect, old(Snap()), head, false)
    {
      hide Accounted, Traced, Parsed, Step;
      StepKeeps(redirect, Snap(), tokens, sent, head);
      TracedStep(redirect, Snap(), tokens, Done(), cuts, head);
      WaitsIff(redirect, Snap(), tokens, sent);
      tokens := TokensAfter(Snap(), tokens, head);
      match adaptation {
        case Unknown => OutsideParser(head);
        case OutsideTag => OutsideParser(head);
        case InsideTag => InsideParser(head);
        case InsideComment => IgnoreComment(head);
        case InsideAttribute => AttributeParser(head);
      }
    }

    /** Runs the machine over a text. */
    method IncrementalAdaptation(bodyText: Text) returns (ret: Text)
      requires Valid()
      modifies this
      ensures Valid() && Done() == old(Done()) + bodyText && accum == old(accum) && sent == old(sent)
      ensures cuts == old(cuts)
      ensures Snap() == Run(redirect, old(Snap()), bodyText) && ret == buffer
    {
      hide Accounted, Traced, Parsed, Step, Run;
      RunNothing(redirect, Snap());
      var i := 0;
      while i < |bodyText|
        invariant i <= |bodyText| && Valid() && accum == old(accum) && sent == old(sent) && cuts == old(cuts)
        invariant Done() == old(Done()) + bodyText[..i]
        invariant Snap() == Run(redirect, old(Snap()), bodyText[..i])
      {
        RunPush(redirect, old(Snap()), bodyText[..i], bodyText[i]);
        assert bodyText[..i + 1] == bodyText[..i] + [bodyText[i]];
        ParseByte(bodyText[i]);
        i := i + 1;
      }
      assert bodyText[..i] == bodyText;
      return buffer;
    }

    lemma WaitsIff(redirect: Redirect, s: Snapshot, ts: seq<Token>, sent: Text)
      requires Accounted(redirect, s, ts, sent)
      ensures s.contextAtrb == [] <==> s.adaptationWait == None
    {
    }

    /** HTML: what has become certain since the last call; little input only waits. Other
    bodies wait for the end, where the whole is offered to the rewriter. */
    method AdaptBody(bodyText: Text, force: bool) returns (ret: Option<Text>)
      requires Valid() && buffer == []
      modifies this
      ensures Valid() && buffer == [] && sent == old(sent) + (if html then ret.GetOr([]) else [])
      ensures html ==> ret.Some? && Done() + accum == old(Done() + accum) + bodyText
      ensures html && (force || |old(accum) + bodyText| >= ACCUM_LIMIT) ==>
        accum == [] && cuts == old(cuts) + {|Done()|}
      ensures html && !force && |old(accum) + bodyText| < ACCUM_LIMIT ==>
        ret == Some([]) && Done() == old(Done()) && cuts == old(cuts)
      ensures !html ==> Snap() == old(Snap()) && tokens == old(tokens)
      ensures !html && !force ==> ret == Some([]) && accum == old(accum) + bodyText
      ensures !html && force ==> ret == PartialChange(redirect, old(accum) + bodyText, false) && accum == []
    {
      hide Accounted, Traced, Parsed, Run;
      ghost var before := Done() + accum;
      accum := accum + bodyText;
      assert Done() + accum == before + bodyText;
      if !html {
        if !force {
          return Some([]);
        }
        ret := PartialChange(redirect, accum, false);
        buffer := [];
        accum := [];
        return;
      }
      if !force && |accum| < ACCUM_LIMIT {
        return Some([]);
      }
      var text := IncrementalAdaptation(accum);
      Flushed(redirect, Snap(), tokens, sent);
      TracedFlush(redirect, Snap(), tokens, Done(), cuts);
      sent := sent + text;
      cuts := cuts + {|Done()|};
      buffer := [];
      accum := [];
      return Some(text);
    }

    lemma Flushed(redirect: Redirect, s: Snapshot, ts: seq<Token>, sent: Text)
      requires Accounted(redirect, s, ts, sent)
      ensures Accounted(redirect, s.(buffer := []), ts, sent + s.buffer)
      ensures Parsed(s.(buffer := []), ts) == Parsed(s, ts)
    {
    }

    /** Returns the rest: what was waiting, parsed, and the unfinished word or value as it is.
    When the rewriter has no answer for a body that is not HTML, adding to None fails, and
    the handler returns None. */
    method AdaptEnd() returns (ret: Option<Text>)
      requires Valid() && buffer == [] && (!html ==> Snap() == START)
      modifies this
      ensures Valid() && (contextAtrb == [] || contextText == [])
      ensures html ==> Done() == old(Done() + accum)
      ensures html ==> old(cuts) <= cuts <= old(cuts) + {|Done()|}
      ensures html ==> old(sent) + ret.GetOr([]) == Render(redirect, tokens) + (contextAtrb + contextText)
      ensures !html ==> ret.GetOr([]) == PartialChange(redirect, old(accum), false).GetOr([])
    {
      hide Accounted, Traced, Parsed, Run, Source, Render, PartialChange;
      AtMostOneContext(redirect, Snap(), tokens, sent);
      NoChunk(redirect);
      var text := [];
      if accum != [] {
        var inp := accum;
        ghost var done := Done();
        accum := [];
        assert done + [] + inp == done + inp;
        var body := AdaptBody(inp, true);
        assert [] + inp == inp && Done() + accum == Done();
        AtMostOneContext(redirect, Snap(), tokens, sent);
        if body.None? {
          return None;
        }
        text := body.value;
      } else {
        assert Done() + accum == Done();
      }
      assert html ==> old(sent) + text == Render(redirect, tokens);
      assert old(sent) + (text + (contextAtrb + contextText)) == (old(sent) + text) + (contextAtrb + contextText);
      text := text + (contextAtrb + contextText);
      ret := if text != [] then Some(text) else None;
    }

    lemma AtMostOneContext(redirect: Redirect, s: Snapshot, ts: seq<Token>, sent: Text)
      requires Accounted(redirect, s, ts, sent)
      ensures s.contextAtrb == [] || s.contextText == []
      ensures sent + s.buffer == Render(redirect, ts)
    {
    }
  }

  /** The calls made for one HTML body that arrives in chunks. Whatever the chunks: the body
  is the tokens' source and an unfinished rest, what is sent is what the tokens render to and
  the same rest, and a rewriter that changes nothing gives the body back. The tokens are those of
  reading the body by descent. */
  method AdaptHtml(redirect: Redirect, chunks: seq<Text>)
    returns (all: Text, ghost tokens: seq<Token>, ghost rest: Text)
    ensures Concat(chunks) == Source(tokens) + rest
    ensures all == Render(redirect, tokens) + rest
    ensures forall i :: 0 <= i < |tokens| ==> tokens[i].WellFormed()
    ensures tokens == Reading(Words, Concat(chunks), 0, FlushPlaces(chunks))
    ensures IsIdentity(redirect) ==> all == Concat(chunks)
  {
    hide Traced, FlushPlaces, Waiting, Reading;
    hide Source, Render, Ignoring, Replacement, Changed, IsWord, IsValue, Ends, Concat, Standing, IsIdentity;
    var state := new State(redirect, true);
    ConcatNothing<byte>();
    NothingWaits();
    all := [];
    var i := 0;
    while i < |chunks|
      invariant i <= |chunks| && fresh(state) && state.Valid() && state.buffer == []
      invariant state.redirect == redirect && state.html
      invariant all == state.sent && state.Done() + state.accum == Concat(chunks[..i])
      invariant |state.accum| == Waiting(chunks[..i]) && state.cuts == FlushPlaces(chunks[..i])
    {
      var ret := state.AdaptBody(chunks[i], false);
      all := all + ret.GetOr([]);
      ConcatPush(chunks, i);
      PlacesPush(chunks, i);
      i := i + 1;
    }
    assert chunks[..i] == chunks;
    var ret := state.AdaptEnd();
    all := all + ret.GetOr([]);
    AllIsRead(redirect, state.Snap(), state.tokens, Concat(chunks), FlushPlaces(chunks), state.cuts);
    tokens, rest := state.tokens, state.contextAtrb + state.contextText;
    assert all == Render(redirect, tokens) + rest;
    assert Source(tokens) + state.contextAtrb + state.contextText == Source(tokens) + rest;
    if IsIdentity(redirect) {
      IdentityRendersSource(redirect, tokens);
    }
  }

  lemma NothingWaits()
    ensures Waiting([]) == 0 && FlushPlaces([]) == {}
  {
  }

  /** A cut at the end does not show. */
  lemma AllIsRead(redirect: Redirect, s: Snapshot, ts: seq<Token>, t: Text, cuts: set<nat>, more: set<nat>)
    requires Traced(redirect, s, ts, t, more) && cuts <= more <= cuts + {|t|}
    ensures ts == Reading(Words, t, 0, cuts)
  {
    hide RunCut, Made, Reading;
    CutsAgree(redirect, t, cuts, more);
    BodyIsRead(redirect, t, cuts);
  }

  /** The calls made for a body that is not HTML: all or nothing at the end. */
  method AdaptOther(redirect: Redirect, chunks: seq<Text>) returns (all: Text)
    ensures all == PartialChange(redirect, Concat(chunks), false).GetOr([])
  {
    hide Accounted, Traced, Concat, PartialChange;
    var state := new State(redirect, false);
    ConcatNothing<byte>();
    all := [];
    var i := 0;
    while i < |chunks|
      invariant i <= |chunks| && fresh(state) && state.Valid() && state.Snap() == START && all == []
      invariant state.redirect == redirect && !state.html && state.accum == Concat(chunks[..i])
    {
      var ret := state.AdaptBody(chunks[i], false);
      all := all + ret.GetOr([]);
      ConcatPush(chunks, i);
      i := i + 1;
    }
    assert chunks[..i] == chunks;
    NoChunk(redirect);
    var ret := state.AdaptEnd();
    all := all + ret.GetOr([]);
  }

  lemma NoChunk(redirect: Redirect)
    ensures PartialChange(redirect, [], false) == None
  {
  }

  /** A rewriter that gives every text back keeps a body that is not HTML exactly when the
  body does not begin with `mailto:`; such a body is lost. */
  lemma OtherBodyKeptIff(redirect: Redirect, body: Text)
    requires forall t :: redirect(t) == Some(t)
    ensures PartialChange(redirect, body, false).GetOr([]) == body <==> !(MAILTO <= body)
  {
  }
}
