/** The context for HTML (`rena/src/context_html.c`): rewriting is allowed from an
attribute value on, until the next tag opens. */
module HtmlContext {
  import opened Bytes

  const TAB: byte := 9
  const BANG: byte := 33
  const DOUBLE_QUOTE: byte := 34
  const SINGLE_QUOTE: byte := 39
  const DASH: byte := 45
  const LESS: byte := 60
  const EQUALS: byte := 61
  const GREATER: byte := 62
  const BACKSLASH: byte := 92

  const UNKNOWN := 0
  const OUTSIDE_TAG := 1
  const INSIDE_TAG := 2
  const INSIDE_TAG_0 := 3
  const INSIDE_TAG_1 := 4
  const INSIDE_TAG_2 := 5
  const INSIDE_COMM_0 := 6
  const INSIDE_COMM_1 := 7
  const INSIDE_COMM_2 := 8
  const INSIDE_ATTRIB := 9
  const INSIDE_ATTRIB_IGN := 10
  const INSIDE_ATTRIB_0 := 11
  const INSIDE_ATTRIB_S := 12
  const INSIDE_ATTRIB_S_IGN := 13
  const INSIDE_ATTRIB_D := 14
  const INSIDE_ATTRIB_D_IGN := 15

  /** What ends an unquoted value: white space or `>`. */
  predicate EndsValue(c: byte) {
    c == 32 || 9 <= c <= 13 || c == GREATER
  }

  lemma BytesSpelled(c: byte)
    ensures EndsValue(c) <==> c in Ascii(" \t\U{0B}\n\r\U{0C}>")
    ensures [LESS, BANG, DASH, GREATER] == Ascii("<!->") && [EQUALS, BACKSLASH] == Ascii("=\\")
    ensures [SINGLE_QUOTE, DOUBLE_QUOTE] == Ascii("'\"")
  {
    assert Ascii(" \t\U{0B}\n\r\U{0C}>") == [32, 9, 11, 10, 13, 12, 62];
  }

  class Context {
    var stage: int
    var ignore: bool

    ghost predicate Valid()
      reads this
    {
      State(stage, ignore).Valid()
    }

    constructor ()
      ensures Valid() && State(stage, ignore) == START
    {
      stage, ignore := UNKNOWN, true;
    }

    method InsideTag(input: byte) returns (res: bool)
      requires INSIDE_TAG <= stage <= INSIDE_TAG_2
      modifies `stage
      ensures stage == NextInTag(old(stage), input) && res == !ignore
    {
      res := !ignore;
      if input == GREATER {
        stage := OUTSIDE_TAG;
      } else if input == EQUALS {
        stage := INSIDE_ATTRIB_0;
      } else if stage == INSIDE_TAG_0 {
        if input == BANG {
          stage := INSIDE_TAG_1;
        } else {
          stage := INSIDE_TAG;
        }
      } else if stage == INSIDE_TAG_1 || stage == INSIDE_TAG_2 {
        if input == DASH {
          stage := stage + 1;
        } else {
          stage := INSIDE_TAG;
        }
      }
    }

    method InsideAttribute(input: byte) returns (res: bool)
      requires stage in {INSIDE_ATTRIB, INSIDE_ATTRIB_0, INSIDE_ATTRIB_S, INSIDE_ATTRIB_D}
      modifies this
      ensures stage == NextInAttribute(old(stage), input) && !ignore && res
    {
      res := true;
      ignore := false;
      var delim := if stage == INSIDE_ATTRIB_S then input == SINGLE_QUOTE
                   else if stage == INSIDE_ATTRIB_D then input == DOUBLE_QUOTE
                   else EndsValue(input);
      if stage == INSIDE_ATTRIB_0 {
        if input == SINGLE_QUOTE {
          stage := INSIDE_ATTRIB_S;
        } else if input == DOUBLE_QUOTE {
          stage := INSIDE_ATTRIB_D;
        } else {
          stage := INSIDE_ATTRIB;
        }
      }
      if input == BACKSLASH {
        stage := stage + 1;
      } else if delim {
        stage := INSIDE_TAG;
      }
    }

    method InsideComment(input: byte) returns (res: bool)
      requires INSIDE_COMM_0 <= stage <= INSIDE_COMM_2
      modifies `stage
      ensures stage == NextInComment(old(stage), input) && res == !ignore
    {
      res := !ignore;
      if stage == INSIDE_COMM_2 {
        if input == GREATER {
          stage := OUTSIDE_TAG;
        } else if input != DASH {
          stage := INSIDE_COMM_0;
        }
      } else if stage == INSIDE_COMM_1 {
        if input == DASH {
          stage := INSIDE_COMM_2;
        } else {
          stage := INSIDE_COMM_0;
        }
      } else if input == DASH {
        stage := INSIDE_COMM_1;
      }
    }

    method OutsideTag(input: byte) returns (res: bool)
      modifies this
      ensures stage == (if input == LESS then INSIDE_TAG_0 else old(stage))
      ensures ignore == (input == LESS || old(ignore)) && res == !old(ignore)
    {
      res := !ignore;
      if input == LESS {
        ignore := true;
        stage := INSIDE_TAG_0;
      }
    }

    /** `evaluate`: no byte takes the stage out of the sixteen. */
    method Evaluate(input: byte) returns (res: bool)
      requires Valid()
      modifies this
      ensures Valid()
      ensures State(stage, ignore) == Next(State(old(stage), old(ignore)), input)
      ensures res == Permits(State(old(stage), old(ignore)))
    {
      res := !ignore;
      if stage in {INSIDE_ATTRIB, INSIDE_ATTRIB_0, INSIDE_ATTRIB_S, INSIDE_ATTRIB_D} {
        res := InsideAttribute(input);
      } else if stage == INSIDE_ATTRIB_IGN {
        stage := INSIDE_ATTRIB;
      } else if stage == INSIDE_ATTRIB_S_IGN {
        stage := INSIDE_ATTRIB_S;
      } else if stage == INSIDE_ATTRIB_D_IGN {
        stage := INSIDE_ATTRIB_D;
      } else if INSIDE_TAG <= stage <= INSIDE_TAG_2 {
        res := InsideTag(input);
      } else if INSIDE_COMM_0 <= stage <= INSIDE_COMM_2 {
        res := InsideComment(input);
      } else {
        res := OutsideTag(input);
      }
    }

    method Judge(t: Text) returns (verdicts: seq<bool>)
      requires Valid()
      modifies this
      ensures Valid() && verdicts == Verdicts(State(old(stage), old(ignore)), t)
    {
      verdicts := [];
      var i := 0;
      ghost var all := Verdicts(State(stage, ignore), t);
      assert t[0..] == t;
      while i < |t|
        invariant i <= |t| && Valid()
        invariant all == verdicts + Verdicts(State(stage, ignore), t[i..])
      {
        assert t[i..][1..] == t[i + 1..];
        var res := Evaluate(t[i]);
        verdicts := verdicts + [res];
        i := i + 1;
      }
    }
  }

  datatype State = State(stage: int, ignore: bool) {
    /** One of the sixteen stages; inside a value nothing is ignored any more. */
    predicate Valid() {
      UNKNOWN <= stage <= INSIDE_ATTRIB_D_IGN &&
      (stage in {INSIDE_ATTRIB_IGN, INSIDE_ATTRIB_S_IGN, INSIDE_ATTRIB_D_IGN} ==> !ignore)
    }
  }

  const START := State(UNKNOWN, true)

  predicate Permits(s: State) {
    s.stage in {INSIDE_ATTRIB, INSIDE_ATTRIB_0, INSIDE_ATTRIB_S, INSIDE_ATTRIB_D} || !s.ignore
  }

  function NextInTag(stage: int, c: byte): int {
    if c == GREATER then OUTSIDE_TAG
    else if c == EQUALS then INSIDE_ATTRIB_0
    else if stage == INSIDE_TAG_0 && c == BANG then INSIDE_TAG_1
    else if stage == INSIDE_TAG_1 && c == DASH then INSIDE_TAG_2
    else if stage == INSIDE_TAG_2 && c == DASH then INSIDE_COMM_0
    else INSIDE_TAG
  }

  function NextInAttribute(stage: int, c: byte): int {
    if stage == INSIDE_ATTRIB_S then
      if c == SINGLE_QUOTE then INSIDE_TAG else if c == BACKSLASH then INSIDE_ATTRIB_S_IGN else INSIDE_ATTRIB_S
    else if stage == INSIDE_ATTRIB_D then
      if c == DOUBLE_QUOTE then INSIDE_TAG else if c == BACKSLASH then INSIDE_ATTRIB_D_IGN else INSIDE_ATTRIB_D
    else if stage == INSIDE_ATTRIB_0 && c == SINGLE_QUOTE then INSIDE_ATTRIB_S
    else if stage == INSIDE_ATTRIB_0 && c == DOUBLE_QUOTE then INSIDE_ATTRIB_D
    else if c == BACKSLASH then INSIDE_ATTRIB_IGN
    else if EndsValue(c) then INSIDE_TAG
    else INSIDE_ATTRIB
  }

  function NextInComment(stage: int, c: byte): int {
    if stage == INSIDE_COMM_2 && c == GREATER then OUTSIDE_TAG
    else if c != DASH then INSIDE_COMM_0
    else if stage == INSIDE_COMM_0 then INSIDE_COMM_1
    else INSIDE_COMM_2
  }

  function Next(s: State, c: byte): State {
    if s.stage in {INSIDE_ATTRIB, INSIDE_ATTRIB_0, INSIDE_ATTRIB_S, INSIDE_ATTRIB_D} then
      State(NextInAttribute(s.stage, c), false)
    else if s.stage == INSIDE_ATTRIB_IGN then s.(stage := INSIDE_ATTRIB)
    else if s.stage == INSIDE_ATTRIB_S_IGN then s.(stage := INSIDE_ATTRIB_S)
    else if s.stage == INSIDE_ATTRIB_D_IGN then s.(stage := INSIDE_ATTRIB_D)
    else if INSIDE_TAG <= s.stage <= INSIDE_TAG_2 then s.(stage := NextInTag(s.stage, c))
    else if INSIDE_COMM_0 <= s.stage <= INSIDE_COMM_2 then s.(stage := NextInComment(s.stage, c))
    else if c == LESS then State(INSIDE_TAG_0, true)
    else s
  }

  function Verdicts(s: State, t: Text): (v: seq<bool>)
    ensures |v| == |t|
    decreases |t|
  {
    if t == [] then [] else [Permits(s)] + Verdicts(Next(s, t[0]), t[1..])
  }

  // ----- reading HTML

  /** A byte that opens a tag, one of an attribute value (its end included), or neither. */
  datatype Mark = Plain | Open | Value

  datatype Mode = Outside | TagStart | Tag | Comment | ValueStart | Quoted(q: byte) | Unquoted

  predicate Starts(t: Text, w: Text) {
    w <= t
  }

  const COMMENT_OPEN: Text := [BANG, DASH, DASH]
  const COMMENT_CLOSE: Text := [DASH, DASH, GREATER]

  /** The marks of a text by descent: text up to `<`; a comment from `!--` up to the first
  `-->`; a tag up to `>`, with a value after each `=`; a value up to its own quote, or
  unquoted up to white space or `>`, where a backslash protects the byte after it. */
  function Marks(mode: Mode, t: Text): (m: seq<Mark>)
    ensures |m| == |t|
    decreases |t|, if mode.TagStart? || mode.ValueStart? then 1 else 0
  {
    if t == [] then [] else
    match mode
    case Outside => if t[0] == LESS then [Open] + Marks(TagStart, t[1..]) else [Plain] + Marks(Outside, t[1..])
    case TagStart => if Starts(t, COMMENT_OPEN) then [Plain, Plain, Plain] + Marks(Comment, t[3..]) else Marks(Tag, t)
    case Tag =>
      [Plain] + Marks(if t[0] == GREATER then Outside else if t[0] == EQUALS then ValueStart else Tag, t[1..])
    case Comment =>
      if Starts(t, COMMENT_CLOSE) then [Plain, Plain, Plain] + Marks(Outside, t[3..])
      else [Plain] + Marks(Comment, t[1..])
    case ValueStart =>
      if t[0] == SINGLE_QUOTE || t[0] == DOUBLE_QUOTE then [Value] + Marks(Quoted(t[0]), t[1..]) else Marks(Unquoted, t)
    case Quoted(q) =>
      if t[0] == q then [Value] + Marks(Tag, t[1..])
      else if t[0] == BACKSLASH && 2 <= |t| then [Value, Value] + Marks(mode, t[2..])
      else [Value] + Marks(mode, t[1..])
    case Unquoted =>
      if EndsValue(t[0]) then [Value] + Marks(Tag, t[1..])
      else if t[0] == BACKSLASH && 2 <= |t| then [Value, Value] + Marks(mode, t[2..])
      else [Value] + Marks(mode, t[1..])
  }

  /** A byte is allowed when a value byte, possibly itself, came after the last opening. */
  function Allowed(marks: seq<Mark>, before: bool): (v: seq<bool>)
    ensures |v| == |marks|
  {
    if marks == [] then []
    else [before || marks[0].Value?] + Allowed(marks[1..], (before && !marks[0].Open?) || marks[0].Value?)
  }

  lemma {:induction false} AllowedSinceValue(marks: seq<Mark>, before: bool, i: nat)
    requires i < |marks|
    ensures Allowed(marks, before)[i] <==>
      (exists j :: 0 <= j <= i && marks[j].Value? && forall k :: j < k < i ==> !marks[k].Open?) ||
      (before && forall k :: 0 <= k < i ==> !marks[k].Open?)
  {
    if 0 < i {
      var now := (before && !marks[0].Open?) || marks[0].Value?;
      AllowedSinceValue(marks[1..], now, i - 1);
      assert forall k :: 0 < k < |marks| ==> marks[k] == marks[1..][k - 1];
    }
  }

  // ----- the automaton reads HTML

  /** The mark of a byte as the automaton sees it. */
  function KindOf(s: State, c: byte): Mark {
    if INSIDE_ATTRIB <= s.stage then Value
    else if c == LESS && !(INSIDE_TAG <= s.stage) then Open
    else Plain
  }

  function Kinds(s: State, t: Text): (m: seq<Mark>)
    ensures |m| == |t|
    decreases |t|
  {
    if t == [] then [] else [KindOf(s, t[0])] + Kinds(Next(s, t[0]), t[1..])
  }

  /** What is permitted follows from the marks. */
  lemma {:induction false} VerdictsOfKinds(s: State, t: Text)
    requires s.Valid()
    ensures Verdicts(s, t) == Allowed(Kinds(s, t), !s.ignore)
    decreases |t|
  {
    if t != [] {
      VerdictsOfKinds(Next(s, t[0]), t[1..]);
      AllowedHead(KindOf(s, t[0]), Kinds(Next(s, t[0]), t[1..]), !s.ignore);
    }
  }

  lemma AllowedHead(m: Mark, ms: seq<Mark>, b: bool)
    ensures Allowed([m] + ms, b) == [b || m.Value?] + Allowed(ms, (b && !m.Open?) || m.Value?)
  {
    assert ([m] + ms)[1..] == ms;
  }

  /** The stage in which the automaton reads a part of the text. */
  predicate ReadsAs(s: State, mode: Mode) {
    match mode
    case Outside => s.stage == UNKNOWN || s.stage == OUTSIDE_TAG
    case TagStart => s.stage == INSIDE_TAG_0
    case Tag => s.stage == INSIDE_TAG
    case Comment => s.stage == INSIDE_COMM_0
    case ValueStart => s.stage == INSIDE_ATTRIB_0
    case Quoted(q) =>
      (q == SINGLE_QUOTE && s.stage == INSIDE_ATTRIB_S) || (q == DOUBLE_QUOTE && s.stage == INSIDE_ATTRIB_D)
    case Unquoted => s.stage == INSIDE_ATTRIB
  }

  lemma OneKind(s: State, t: Text)
    requires t != []
    ensures Kinds(s, t) == [KindOf(s, t[0])] + Kinds(Next(s, t[0]), t[1..])
  {
  }

  /** The automaton marks a text as reading it by descent does, from every part of it on. */
  lemma {:induction false} KindsAsMarked(s: State, mode: Mode, t: Text)
    requires ReadsAs(s, mode)
    ensures Kinds(s, t) == Marks(mode, t)
    decreases |t|, if mode.TagStart? then 4 else if mode.ValueStart? then 2 else 1
  {
    if t != [] {
      match mode
      case Outside => KindsAsMarked(Next(s, t[0]), if t[0] == LESS then TagStart else Outside, t[1..]);
      case TagStart => TagStartAsMarked(s, t);
      case Tag =>
        KindsAsMarked(Next(s, t[0]),
          if t[0] == GREATER then Outside else if t[0] == EQUALS then ValueStart else Tag, t[1..]);
      case Comment =>
        CommentAsMarked(s, t, 0);
        assert Dashes(0) + t == t;
      case ValueStart =>
        if t[0] == SINGLE_QUOTE || t[0] == DOUBLE_QUOTE {
          KindsAsMarked(Next(s, t[0]), Quoted(t[0]), t[1..]);
        } else {
          KindsAsMarked(State(INSIDE_ATTRIB, s.ignore), Unquoted, t);
        }
      case Quoted(q) => ValueAsMarked(s, mode, t);
      case Unquoted => ValueAsMarked(s, mode, t);
    }
  }

  lemma ValueAsMarked(s: State, mode: Mode, t: Text)
    requires ReadsAs(s, mode) && (mode.Quoted? || mode.Unquoted?) && t != []
    ensures Kinds(s, t) == Marks(mode, t)
    decreases |t|, 0
  {
    var ends := if mode.Quoted? then t[0] == mode.q else EndsValue(t[0]);
    if !ends && t[0] == BACKSLASH {
      var u := t[1..];
      OneKind(s, t);
      if u != [] {
        OneKind(Next(s, t[0]), u);
        assert u[1..] == t[2..];
        KindsAsMarked(Next(Next(s, t[0]), u[0]), mode, t[2..]);
      }
    } else {
      KindsAsMarked(Next(s, t[0]), if ends then Tag else mode, t[1..]);
    }
  }

  lemma OpensComment(s: State, t: Text)
    requires s.stage == INSIDE_TAG_0 && Starts(t, COMMENT_OPEN)
    ensures Kinds(s, t) == [Plain, Plain, Plain] + Kinds(s.(stage := INSIDE_COMM_0), t[3..])
  {
    hide Kinds;
    assert t[0] == BANG && t[1] == DASH && t[2] == DASH;
    var u, v := t[1..], t[2..];
    assert u[1..] == v && v[1..] == t[3..];
    OneKind(s, t);
    OneKind(s.(stage := INSIDE_TAG_1), u);
    OneKind(s.(stage := INSIDE_TAG_2), v);
  }

  lemma TagStartAsMarked(s: State, t: Text)
    requires s.stage == INSIDE_TAG_0
    ensures Kinds(s, t) == Marks(TagStart, t)
    decreases |t|, 3
  {
    hide Kinds;
    if Starts(t, COMMENT_OPEN) {
      OpensComment(s, t);
      CommentAsMarked(s.(stage := INSIDE_COMM_0), t[3..], 0);
      assert Dashes(0) + t[3..] == t[3..];
    } else {
      TagAlike(s, t, 0);
      KindsAsMarked(s.(stage := INSIDE_TAG), Tag, t);
    }
  }

  /** Part of a comment's opening, without the rest of it, is read like any tag. */
  lemma {:induction false} TagAlike(s: State, t: Text, k: nat)
    requires k < 3 && s.stage == INSIDE_TAG_0 + k && !Starts(t, COMMENT_OPEN[k..])
    ensures Kinds(s, t) == Kinds(s.(stage := INSIDE_TAG), t)
    decreases |t|
  {
    if t != [] && t[0] == COMMENT_OPEN[k] {
      if k < 2 {
        TagAlike(Next(s, t[0]), t[1..], k + 1);
      }
    }
  }

  function Dashes(k: nat): Text {
    seq(k, _ => DASH)
  }

  lemma CommentPlain(u: Text)
    requires u != []
    ensures !Starts(u, COMMENT_CLOSE) ==> Marks(Comment, u) == [Plain] + Marks(Comment, u[1..])
    ensures Starts(u, COMMENT_CLOSE) ==> Marks(Comment, u) == [Plain, Plain, Plain] + Marks(Outside, u[3..])
    ensures Starts(u, COMMENT_CLOSE) <==> 3 <= |u| && u[0] == DASH && u[1] == DASH && u[2] == GREATER
  {
    assert Starts(u, COMMENT_CLOSE) <==> 3 <= |u| && u[..3] == COMMENT_CLOSE;
  }

  /** The dashes just read, `k` of them, may begin the comment's end. */
  lemma {:induction false} CommentAsMarked(s: State, t: Text, k: nat)
    requires k < 3 && s.stage == INSIDE_COMM_0 + k
    ensures Kinds(s, t) == Marks(Comment, Dashes(k) + t)[k..]
    decreases |t|, 0
  {
    hide Marks;
    if t != [] {
      var c, rest := t[0], t[1..];
      OneKind(s, t);
      if c == DASH {
        CommentAsMarked(Next(s, c), rest, if k < 2 then k + 1 else 2);
        CommentDash(t, k);
      } else if c == GREATER && k == 2 {
        KindsAsMarked(Next(s, c), Outside, rest);
        CommentEnd(t);
      } else {
        CommentAsMarked(Next(s, c), rest, 0);
        assert Dashes(0) + rest == rest;
        CommentOther(t, k);
      }
    }
  }

  lemma CommentDash(t: Text, k: nat)
    requires t != [] && k < 3 && t[0] == DASH
    ensures var m := if k < 2 then k + 1 else 2;
      Marks(Comment, Dashes(k) + t)[k..] == [Plain] + Marks(Comment, Dashes(m) + t[1..])[m..]
  {
    hide Marks, Starts;
    var u := Dashes(k) + t;
    CommentPlain(u);
    if k == 0 {
      assert Dashes(1) + t[1..] == u;
    } else if k == 1 {
      assert Dashes(2) + t[1..] == u;
      SecondDash(u);
    } else {
      assert Dashes(2) + t[1..] == u[1..];
      SecondDash(u[1..]);
    }
  }

  lemma SecondDash(u: Text)
    requires 2 <= |u| && u[0] == DASH && u[1] == DASH
    ensures Marks(Comment, u)[1] == Plain
  {
    hide Marks, Starts;
    CommentPlain(u);
    CommentPlain(u[1..]);
  }

  lemma CommentEnd(t: Text)
    requires t != [] && t[0] == GREATER
    ensures Marks(Comment, Dashes(2) + t)[2..] == [Plain] + Marks(Outside, t[1..])
  {
    hide Marks, Starts;
    CommentPlain(Dashes(2) + t);
    assert (Dashes(2) + t)[3..] == t[1..];
  }

  /** A byte that cannot go on with the comment's end leaves nothing of it. */
  lemma CommentOther(t: Text, k: nat)
    requires t != [] && k < 3 && t[0] != DASH && !(t[0] == GREATER && k == 2)
    ensures Marks(Comment, Dashes(k) + t)[k..] == [Plain] + Marks(Comment, t[1..])
  {
    hide Marks, Starts;
    var u := Dashes(k) + t;
    CommentPlain(t);
    if k == 0 {
      assert u == t;
    } else {
      CommentPlain(u);
      assert u[1..] == Dashes(k - 1) + t;
      CommentPlain(u[1..]);
      assert u[1..][k - 1..] == t;
    }
  }

  /** The automaton permits what the marks allow. */
  lemma PermitsAsMarked(s: State, mode: Mode, t: Text)
    requires s.Valid() && ReadsAs(s, mode)
    ensures Verdicts(s, t) == Allowed(Marks(mode, t), !s.ignore)
  {
    KindsAsMarked(s, mode, t);
    VerdictsOfKinds(s, t);
  }

  // ----- where a tag ends

  function After(s: State, t: Text): State
    decreases |t|
  {
    if t == [] then s else After(Next(s, t[0]), t[1..])
  }

  lemma {:induction false} KindsAt(s: State, t: Text, i: nat)
    requires i < |t|
    ensures Kinds(s, t)[i] == KindOf(After(s, t[..i]), t[i])
    ensures After(s, t[..i + 1]) == Next(After(s, t[..i]), t[i])
    decreases |t|
  {
    var u := t[..i + 1];
    if 0 < i {
      KindsAt(Next(s, t[0]), t[1..], i - 1);
      assert t[..i][1..] == t[1..][..i - 1] && u[1..] == t[1..][..i];
    } else {
      assert u[1..] == [];
    }
  }

  /** The text is inside a tag: neither outside of one nor in a comment. */
  predicate InsideTagNow(s: State) {
    INSIDE_TAG <= s.stage && !(INSIDE_COMM_0 <= s.stage <= INSIDE_COMM_2)
  }

  /** Inside a tag a `>` ends it exactly when it is no byte of an attribute value, and the
  `>` that ends an unquoted value is one. */
  lemma TagEndsIffPlain(t: Text, i: nat)
    requires i < |t| && t[i] == GREATER && InsideTagNow(After(START, t[..i]))
    ensures After(START, t[..i + 1]).stage == OUTSIDE_TAG <==> Marks(Outside, t)[i].Plain?
    ensures InsideTagNow(After(START, t[..i + 1])) <==> Marks(Outside, t)[i].Value?
  {
    KindsAsMarked(START, Outside, t);
    KindsAt(START, t, i);
    StagesStay(START, t[..i]);
  }

  lemma {:induction false} StagesStay(s: State, t: Text)
    requires s.Valid()
    ensures After(s, t).Valid()
    decreases |t|
  {
    if t != [] {
      StagesStay(Next(s, t[0]), t[1..]);
    }
  }

  lemma AfterTwo(s: State, a: byte, b: byte, rest: Text)
    ensures After(s, [a, b] + rest) == After(Next(Next(s, a), b), rest)
  {
    var t := [a, b] + rest;
    assert t[1..] == [b] + rest && ([b] + rest)[1..] == rest;
  }

  lemma AfterOne(s: State, a: byte)
    ensures After(s, [a]) == Next(s, a)
  {
    assert [a][1..] == [];
  }

  /** After `<a b=c>` the context is still inside the tag; after `<a b>` it is not. */
  lemma UnquotedValueKeepsTagOpen()
    ensures After(START, [LESS, 97, 32, 98, EQUALS, 99, GREATER]).stage == INSIDE_TAG
    ensures After(START, [LESS, 97, 32, 98, GREATER]).stage == OUTSIDE_TAG
  {
    hide After;
    var s := Next(Next(START, LESS), 97);
    AfterTwo(START, LESS, 97, [32, 98, EQUALS, 99, GREATER]);
    AfterTwo(s, 32, 98, [EQUALS, 99, GREATER]);
    AfterTwo(Next(Next(s, 32), 98), EQUALS, 99, [GREATER]);
    AfterOne(Next(Next(Next(Next(s, 32), 98), EQUALS), 99), GREATER);
    assert [LESS, 97] + [32, 98, EQUALS, 99, GREATER] == [LESS, 97, 32, 98, EQUALS, 99, GREATER];
    assert [32, 98] + [EQUALS, 99, GREATER] == [32, 98, EQUALS, 99, GREATER];
    assert [EQUALS, 99] + [GREATER] == [EQUALS, 99, GREATER];
    AfterTwo(START, LESS, 97, [32, 98, GREATER]);
    AfterTwo(s, 32, 98, [GREATER]);
    AfterOne(Next(Next(s, 32), 98), GREATER);
    assert [LESS, 97] + [32, 98, GREATER] == [LESS, 97, 32, 98, GREATER];
    assert [32, 98] + [GREATER] == [32, 98, GREATER];
  }

  /** A byte of a stream is permitted exactly when an attribute value's byte, possibly
  itself, has been read since the last `<` that opened a tag. */
  lemma PermittedSinceValue(t: Text, i: nat)
    requires i < |t|
    ensures Verdicts(START, t)[i] <==>
      exists j :: 0 <= j <= i && Marks(Outside, t)[j].Value? && forall k :: j < k < i ==> !Marks(Outside, t)[k].Open?
  {
    PermitsAsMarked(START, Outside, t);
    AllowedSinceValue(Marks(Outside, t), false, i);
  }

  // ----- where a quoted value ends

  /** How many backslashes stand in a row right before position `i`. */
  function Backslashes(t: Text, i: nat): nat
    requires i <= |t|
  {
    if 0 < i && t[i - 1] == BACKSLASH then Backslashes(t, i - 1) + 1 else 0
  }

  /** A matching quote that no backslash protects. */
  predicate Closes(q: byte, t: Text, i: nat)
    requires i < |t|
  {
    t[i] == q && Backslashes(t, i) % 2 == 0
  }

  lemma {:induction false} BackslashesShift(t: Text, n: nat, i: nat)
    requires n <= i <= |t| && Backslashes(t, n) % 2 == 0
    ensures Backslashes(t, i) % 2 == Backslashes(t[n..], i - n) % 2
    decreases i
  {
    if n < i {
      assert t[n..][i - n - 1] == t[i - 1];
      BackslashesShift(t, n, i - 1);
    }
  }

  lemma ClosesShift(q: byte, t: Text, n: nat)
    requires n <= |t| && Backslashes(t, n) % 2 == 0
    ensures forall j :: 0 <= j < |t| - n ==> Closes(q, t[n..], j) == Closes(q, t, j + n)
  {
    forall j | 0 <= j < |t| - n
      ensures Closes(q, t[n..], j) == Closes(q, t, j + n)
    {
      BackslashesShift(t, n, j + n);
    }
  }

  /** A byte, or a backslash and the byte it protects, inside a quoted value. */
  lemma InsideQuotes(q: byte, t: Text) returns (n: nat)
    requires (q == SINGLE_QUOTE || q == DOUBLE_QUOTE) && t != [] && t[0] != q && t != [BACKSLASH]
    ensures 1 <= n <= |t| && Backslashes(t, n) % 2 == 0
    ensures forall i :: 0 <= i < n ==> !Closes(q, t, i)
    ensures Marks(Quoted(q), t) == Values(n) + Marks(Quoted(q), t[n..])
  {
    n := if t[0] == BACKSLASH then 2 else 1;
    assert Backslashes(t, 1) == if t[0] == BACKSLASH then 1 else 0;
    assert Values(1) == [Value] && Values(2) == [Value, Value];
  }

  function Values(n: nat): (m: seq<Mark>)
    ensures |m| == n
  {
    seq(n, _ => Value)
  }

  ghost predicate EndsAt(q: byte, t: Text, e: nat) {
    e <= |t| && (forall i :: 0 <= i < e ==> !Closes(q, t, i)) && (e < |t| ==> Closes(q, t, e))
  }

  lemma QuotedBase(q: byte, t: Text, e: nat)
    requires q == SINGLE_QUOTE || q == DOUBLE_QUOTE
    requires EndsAt(q, t, e) && (t == [] || t[0] == q || t == [BACKSLASH])
    ensures Marks(Quoted(q), t) == if e < |t| then Values(e + 1) + Marks(Tag, t[e + 1..]) else Values(|t|)
  {
    hide Backslashes;
    assert Values(1) == [Value];
    if t != [] {
      ClosesFirst(q, t);
      assert e == if t[0] == q then 0 else 1;
    }
  }

  lemma ClosesFirst(q: byte, t: Text)
    requires t != []
    ensures Closes(q, t, 0) <==> t[0] == q
  {
  }

  /** A quoted value ends at the first matching quote that no backslash protects; without
  one it does not end. */
  lemma {:induction false} QuotedValueEnds(q: byte, t: Text, e: nat)
    requires q == SINGLE_QUOTE || q == DOUBLE_QUOTE
    requires EndsAt(q, t, e)
    ensures Marks(Quoted(q), t) == if e < |t| then Values(e + 1) + Marks(Tag, t[e + 1..]) else Values(|t|)
    decreases |t|
  {
    hide Marks, Closes;
    if t == [] || t[0] == q || t == [BACKSLASH] {
      QuotedBase(q, t, e);
    } else {
      var n := InsideQuotes(q, t);
      ClosesShift(q, t, n);
      QuotedValueEnds(q, t[n..], e - n);
      assert e < |t| ==> t[n..][e - n + 1..] == t[e + 1..];
      assert forall k: nat :: Values(n) + Values(k) == Values(n + k);
    }
  }
}
