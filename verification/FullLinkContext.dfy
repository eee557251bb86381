/** The context for text that is not HTML (`rena/src/context_full_link.c`): only what
follows `//` or its escaped form, up to white space, may be rewritten. */
module FullLinkContext {
  import opened Bytes
  import opened Sequences

  const SLASH: byte := 47
  const BACKSLASH: byte := 92

  /** White space: space, tab, line feed, vertical tab, form feed, carriage return. */
  predicate IsDelim(c: byte) {
    c == 32 || 9 <= c <= 13
  }

  /** The letter of an escaped white space: one of t, v, n, r, f in either case. */
  predicate IsEscape(c: byte) {
    var l := Lower(c);
    l == 116 || l == 118 || l == 110 || l == 114 || l == 102
  }

  datatype Stage = Unknown | Bar | Allowed | None | BarS | AllowedS | NoneS

  lemma BytesSpelled(c: byte)
    ensures IsDelim(c) <==> c in Ascii(" \t\U{0B}\n\r\U{0C}")
    ensures IsEscape(c) <==> c in Ascii("tvnrfTVNRF")
    ensures [SLASH] == Ascii("/") && [BACKSLASH] == Ascii("\\")
  {
    assert Ascii(" \t\U{0B}\n\r\U{0C}") == [32, 9, 11, 10, 13, 12];
    assert Ascii("tvnrfTVNRF") == [116, 118, 110, 114, 102, 84, 86, 78, 82, 70];
  }

  class Context {
    var stage: Stage

    constructor ()
      ensures stage == Unknown
    {
      stage := Unknown;
    }

    /** `evaluate`. */
    method Evaluate(input: byte) returns (res: bool)
      modifies this
      ensures stage == Next(old(stage), input) && res == Permits(old(stage))
    {
      res := false;
      match stage {
        case Allowed =>
          res := true;
          if input == BACKSLASH {
            stage := AllowedS;
          } else if IsDelim(input) {
            stage := None;
          }
        case Bar =>
          if input == SLASH {
            stage := Allowed;
          } else if input == BACKSLASH {
            stage := BarS;
          } else {
            stage := None;
          }
        case BarS =>
          stage := if input == SLASH then Allowed else None;
        case AllowedS =>
          res := true;
          stage := if IsEscape(input) then None else Allowed;
        case NoneS =>
          stage := if input == SLASH then Bar else None;
        case _ =>
          stage := None;
          if input == SLASH {
            stage := Bar;
          } else if input == BACKSLASH {
            stage := NoneS;
          }
      }
    }

    /** The verdicts on a whole text are those of its links, however it is cut up. */
    method Judge(t: Text) returns (verdicts: seq<bool>)
      modifies this
      ensures verdicts == Verdicts(old(stage), t) && stage == After(old(stage), t)
    {
      verdicts := [];
      var i := 0;
      while i < |t|
        invariant i <= |t|
        invariant stage == After(old(stage), t[..i]) && verdicts == Verdicts(old(stage), t[..i])
      {
        assert t[..i + 1][..i] == t[..i];
        var res := Evaluate(t[i]);
        verdicts := verdicts + [res];
        i := i + 1;
      }
      assert t[..i] == t;
    }
  }

  predicate Permits(s: Stage) {
    s.Allowed? || s.AllowedS?
  }

  function Next(s: Stage, c: byte): Stage {
    match s
    case Allowed => if c == BACKSLASH then AllowedS else if IsDelim(c) then None else Allowed
    case AllowedS => if IsEscape(c) then None else Allowed
    case Bar => if c == SLASH then Allowed else if c == BACKSLASH then BarS else None
    case BarS => if c == SLASH then Allowed else None
    case NoneS => if c == SLASH then Bar else None
    case _ => if c == SLASH then Bar else if c == BACKSLASH then NoneS else None
  }

  function After(s: Stage, t: Text): Stage {
    if t == [] then s else Next(After(s, t[..|t| - 1]), t[|t| - 1])
  }

  function Verdicts(s: Stage, t: Text): (v: seq<bool>)
    ensures |v| == |t|
  {
    if t == [] then [] else Verdicts(s, t[..|t| - 1]) + [Permits(After(s, t[..|t| - 1]))]
  }

  // ----- what a link is

  /** `//` or `/\/` ends at position `e`. */
  predicate OpensAt(t: Text, e: nat)
    requires e <= |t|
  {
    || (2 <= e && t[e - 2] == SLASH && t[e - 1] == SLASH)
    || (3 <= e && t[e - 3] == SLASH && t[e - 2] == BACKSLASH && t[e - 1] == SLASH)
  }

  /** No link has begun in `t`. */
  predicate Shut(t: Text) {
    forall e :: 0 <= e <= |t| ==> !OpensAt(t, e)
  }

  /** A link begins right after `t`, the first one. */
  predicate Stretch(t: Text) {
    OpensAt(t, |t|) && forall e :: 0 <= e < |t| ==> !OpensAt(t, e)
  }

  /** A link's body: plain bytes and backslash pairs, up to and including white space
  or a backslash with the letter of an escaped white space. */
  predicate Body(t: Text) {
    t != [] &&
    if t[0] == BACKSLASH then 2 <= |t| && (if IsEscape(t[1]) then |t| == 2 else Body(t[2..]))
    else if IsDelim(t[0]) then |t| == 1
    else Body(t[1..])
  }

  /** The beginning of a body that has not ended yet. */
  predicate Unended(t: Text) {
    t == [] ||
    if t[0] == BACKSLASH then |t| == 1 || (!IsEscape(t[1]) && Unended(t[2..]))
    else !IsDelim(t[0]) && Unended(t[1..])
  }

  /** A stretch without links, and the body of the link after it. */
  datatype Link = Link(stretch: Text, body: Text)

  /** What follows the last whole link. */
  datatype Rest = Outside(text: Text) | Inside(stretch: Text, body: Text)

  predicate WellFormed(links: seq<Link>, rest: Rest) {
    && (forall l :: l in links ==> Stretch(l.stretch) && Body(l.body))
    && match rest
       case Outside(text) => Shut(text)
       case Inside(stretch, body) => Stretch(stretch) && Unended(body)
  }

  function Printed(links: seq<Link>, rest: Rest): Text {
    if links != [] then links[0].stretch + links[0].body + Printed(links[1..], rest)
    else if rest.Outside? then rest.text
    else rest.stretch + rest.body
  }

  /** Exactly the bytes of bodies are permitted. */
  function Mask(links: seq<Link>, rest: Rest): seq<bool> {
    if links != [] then Repeat(false, |links[0].stretch|) + Repeat(true, |links[0].body|) + Mask(links[1..], rest)
    else if rest.Outside? then Repeat(false, |rest.text|)
    else Repeat(false, |rest.stretch|) + Repeat(true, |rest.body|)
  }

  // ----- the automaton reads links

  lemma {:induction false} RunAppend(s: Stage, a: Text, b: Text)
    ensures After(s, a + b) == After(After(s, a), b)
    ensures Verdicts(s, a + b) == Verdicts(s, a) + Verdicts(After(s, a), b)
  {
    if b == [] {
      assert a + b == a;
    } else {
      var c := b[..|b| - 1];
      assert (a + b)[..|a + b| - 1] == a + c;
      RunAppend(s, a, c);
    }
  }

  lemma OneByte(s: Stage, c: byte)
    ensures After(s, [c]) == Next(s, c) && Verdicts(s, [c]) == [Permits(s)]
  {
    assert [c][..0] == [];
  }

  /** Outside links the stage remembers just the slash and the escaped slash. */
  ghost predicate Remembers(s: Stage, t: Text) {
    && !Permits(s)
    && (s.Bar? <==> t != [] && t[|t| - 1] == SLASH)
    && (s.BarS? <==> 2 <= |t| && t[|t| - 2] == SLASH && t[|t| - 1] == BACKSLASH)
  }

  lemma {:induction false} ShutIsForbidden(s: Stage, t: Text)
    requires s == Unknown || s == None
    requires Shut(t)
    ensures Remembers(After(s, t), t) && Verdicts(s, t) == Repeat(false, |t|)
  {
    if t != [] {
      var u := t[..|t| - 1];
      ShutPrefix(t, |u|);
      ShutIsForbidden(s, u);
      assert !OpensAt(t, |t|);
    }
  }

  lemma ShutPrefix(t: Text, n: nat)
    requires n <= |t| && forall e :: 0 <= e <= n ==> !OpensAt(t, e)
    ensures Shut(t[..n])
  {
    forall e | 0 <= e <= n
      ensures OpensAt(t[..n], e) == OpensAt(t, e)
    {
    }
  }

  lemma StretchOpens(s: Stage, t: Text)
    requires s == Unknown || s == None
    requires Stretch(t)
    ensures After(s, t) == Allowed && Verdicts(s, t) == Repeat(false, |t|)
  {
    var u := t[..|t| - 1];
    ShutPrefix(t, |u|);
    ShutIsForbidden(s, u);
  }

  lemma {:induction false} BodyIsPermitted(t: Text)
    requires Body(t)
    ensures After(Allowed, t) == None && Verdicts(Allowed, t) == Repeat(true, |t|)
  {
    if t[0] == BACKSLASH {
      assert t == [t[0]] + ([t[1]] + t[2..]);
      RunAppend(Allowed, [t[0]], [t[1]] + t[2..]);
      RunAppend(AllowedS, [t[1]], t[2..]);
      OneByte(Allowed, t[0]);
      OneByte(AllowedS, t[1]);
      if !IsEscape(t[1]) {
        BodyIsPermitted(t[2..]);
      }
    } else {
      assert t == [t[0]] + t[1..];
      RunAppend(Allowed, [t[0]], t[1..]);
      OneByte(Allowed, t[0]);
      if !IsDelim(t[0]) {
        BodyIsPermitted(t[1..]);
      }
    }
  }

  lemma {:induction false} UnendedIsPermitted(t: Text)
    requires Unended(t)
    ensures Verdicts(Allowed, t) == Repeat(true, |t|) && Permits(After(Allowed, t))
  {
    if t == [] {
    } else if t[0] == BACKSLASH {
      OneByte(Allowed, t[0]);
      if 1 < |t| {
        assert t == [t[0]] + ([t[1]] + t[2..]);
        RunAppend(Allowed, [t[0]], [t[1]] + t[2..]);
        RunAppend(AllowedS, [t[1]], t[2..]);
        OneByte(AllowedS, t[1]);
        UnendedIsPermitted(t[2..]);
      } else {
        assert t == [t[0]];
      }
    } else {
      assert t == [t[0]] + t[1..];
      RunAppend(Allowed, [t[0]], t[1..]);
      OneByte(Allowed, t[0]);
      UnendedIsPermitted(t[1..]);
    }
  }

  /** The automaton permits exactly the bytes of link bodies, for every way to read the
  text as links. */
  lemma {:induction false} PermitsLinkBodies(s: Stage, links: seq<Link>, rest: Rest)
    requires s == Unknown || s == None
    requires WellFormed(links, rest)
    ensures Verdicts(s, Printed(links, rest)) == Mask(links, rest)
    decreases |links|
  {
    if links != [] {
      var l, later := links[0], Printed(links[1..], rest);
      StretchOpens(s, l.stretch);
      BodyIsPermitted(l.body);
      PermitsLinkBodies(None, links[1..], rest);
      RunAppend(s, l.stretch + l.body, later);
      RunAppend(s, l.stretch, l.body);
    } else if rest.Outside? {
      ShutIsForbidden(s, rest.text);
    } else {
      StretchOpens(s, rest.stretch);
      UnendedIsPermitted(rest.body);
      RunAppend(s, rest.stretch, rest.body);
    }
  }

  /** Every text can be read as links. */
  lemma {:induction false} EveryTextIsLinks(t: Text) returns (links: seq<Link>, rest: Rest)
    ensures WellFormed(links, rest) && Printed(links, rest) == t
    decreases |t|
  {
    hide Shut, Stretch, Body, Unended, OpensAt, WellFormed, Printed;
    LastPart(Outside(t));
    if Shut(t) {
      return [], Outside(t);
    }
    var e := FirstStretch(t);
    var stretch, after := t[..e], t[e..];
    var n := BodyEnd(after);
    if n == 0 {
      LastPart(Inside(stretch, after));
      return [], Inside(stretch, after);
    }
    links, rest := EveryTextIsLinks(after[n..]);
    LinkAhead(Link(stretch, after[..n]), links, rest);
    links := [Link(stretch, after[..n])] + links;
    assert t == stretch + after[..n] + after[n..];
  }

  lemma LastPart(rest: Rest)
    ensures match rest
      case Outside(text) => Printed([], rest) == text && (Shut(text) ==> WellFormed([], rest))
      case Inside(stretch, body) =>
        Printed([], rest) == stretch + body && (Stretch(stretch) && Unended(body) ==> WellFormed([], rest))
  {
  }

  lemma LinkAhead(l: Link, links: seq<Link>, rest: Rest)
    requires WellFormed(links, rest) && Stretch(l.stretch) && Body(l.body)
    ensures WellFormed([l] + links, rest)
    ensures Printed([l] + links, rest) == l.stretch + l.body + Printed(links, rest)
  {
    hide Shut, Stretch, Body, Unended;
    assert ([l] + links)[1..] == links;
  }

  /** A text with a link begins with a stretch. */
  lemma FirstStretch(t: Text) returns (e: nat)
    requires !Shut(t)
    ensures e <= |t| && Stretch(t[..e])
  {
    e :| 0 <= e <= |t| && OpensAt(t, e) && forall i :: 0 <= i < e ==> !OpensAt(t, i) by {
      FirstOpening(t, 0);
    }
    assert forall i :: 0 <= i <= e ==> OpensAt(t[..e], i) == OpensAt(t, i);
  }

  lemma FirstOpening(t: Text, from: nat)
    requires from <= |t| && exists e :: from <= e <= |t| && OpensAt(t, e)
    requires forall i :: 0 <= i < from ==> !OpensAt(t, i)
    ensures exists e :: 0 <= e <= |t| && OpensAt(t, e) && forall i :: 0 <= i < e ==> !OpensAt(t, i)
    decreases |t| - from
  {
    if !OpensAt(t, from) {
      FirstOpening(t, from + 1);
    }
  }

  /** The length of the body that `t` begins with; 0 when it has no end. */
  lemma {:induction false} BodyEnd(t: Text) returns (n: nat)
    ensures n <= |t|
    ensures if n == 0 then Unended(t) else Body(t[..n])
  {
    if t == [] || (t[0] == BACKSLASH && |t| == 1) {
      n := 0;
    } else if t[0] == BACKSLASH {
      if IsEscape(t[1]) {
        n := 2;
      } else {
        var m := BodyEnd(t[2..]);
        n := if m == 0 then 0 else m + 2;
        assert m != 0 ==> t[..n][2..] == t[2..][..m];
      }
    } else if IsDelim(t[0]) {
      n := 1;
    } else {
      var m := BodyEnd(t[1..]);
      n := if m == 0 then 0 else m + 1;
      assert m != 0 ==> t[..n][1..] == t[1..][..m];
    }
  }
}
