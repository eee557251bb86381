/** Which keys rena's contexts can break: a context lets some bytes through to the matcher and
keeps others from it, so a key may be seen whose bytes do not stand together. */
module RenaContexts {
  import opened Bytes
  import opened Wrappers
  import opened Rules
  import opened PartialMatches
  import opened RenaMatching
  import opened RenaExactness
  import opened RenaGated
  import opened RenaRules
  import RenaProxy
  import HtmlContext
  import FullLinkContext

  /** An automaton that permits a byte or not before it reads it. */
  datatype Gate<!S> = Gate(next: (S, byte) -> S, permits: S -> bool)

  function Stage<S>(g: Gate<S>, s: S, t: Text): S
    decreases |t|
  {
    if t == [] then s else Stage(g, g.next(s, t[0]), t[1..])
  }

  /** The bytes with the verdicts on them. */
  function Judge<S>(g: Gate<S>, s: S, t: Text): (js: seq<Judged>)
    ensures |js| == |t|
    decreases |t|
  {
    if t == [] then [] else [Judged(t[0], g.permits(s))] + Judge(g, g.next(s, t[0]), t[1..])
  }

  lemma {:induction false} JudgeAppend<S>(g: Gate<S>, s: S, a: Text, b: Text)
    ensures Judge(g, s, a + b) == Judge(g, s, a) + Judge(g, Stage(g, s, a), b)
    ensures Stage(g, s, a + b) == Stage(g, Stage(g, s, a), b)
    decreases |a|
  {
    if a == [] {
      assert a + b == b;
    } else {
      assert (a + b)[1..] == a[1..] + b && (a + b)[0] == a[0];
      JudgeAppend(g, g.next(s, a[0]), a[1..], b);
    }
  }

  lemma JudgePrefix<S>(g: Gate<S>, s: S, t: Text, n: nat)
    requires n <= |t|
    ensures Judge(g, s, t)[..n] == Judge(g, s, t[..n])
  {
    hide Judge;
    JudgeAppend(g, s, t[..n], t[n..]);
    assert t == t[..n] + t[n..];
  }

  lemma {:induction false} AcceptedAppend(a: seq<Judged>, b: seq<Judged>)
    ensures Accepted(a + b) == Accepted(a) + Accepted(b)
    decreases |b|
  {
    if b == [] {
      assert a + b == a;
    } else {
      var n := |b| - 1;
      assert (a + b)[..|a + b| - 1] == a + b[..n] && (a + b)[|a + b| - 1] == b[n];
      AcceptedAppend(a, b[..n]);
    }
  }

  lemma AcceptedHead<S>(g: Gate<S>, s: S, t: Text)
    requires t != []
    ensures Accepted(Judge(g, s, t)) ==
      (if g.permits(s) then [t[0]] else []) + Accepted(Judge(g, g.next(s, t[0]), t[1..]))
  {
    var first := Judged(t[0], g.permits(s));
    AcceptedAppend([first], Judge(g, g.next(s, t[0]), t[1..]));
    assert [first][..0] == [];
    assert Accepted([first]) == Accepted([first][..0]) + (if g.permits(s) then [t[0]] else []);
  }

  /** Every beginning of `w`, and `w` itself, leaves a stage that permits the next byte. */
  predicate Carries<S>(g: Gate<S>, s: S, w: Text)
    decreases |w|
  {
    g.permits(s) && (w == [] || Carries(g, g.next(s, w[0]), w[1..]))
  }

  /** What is carried whole has no rejected byte in it. */
  lemma {:induction false} CarriedIsWhole<S>(g: Gate<S>, s: S, t: Text, w: Text)
    requires Carries(g, s, w) && Accepted(Judge(g, s, t)) == w
    ensures t == w && forall i :: 0 <= i < |t| ==> Judge(g, s, t)[i].permitted
    decreases |t|
  {
    if t != [] {
      AcceptedHead(g, s, t);
      assert w[1..] == Accepted(Judge(g, g.next(s, t[0]), t[1..]));
      CarriedIsWhole(g, g.next(s, t[0]), t[1..], w[1..]);
    }
  }

  /** Where the last `k` accepted bytes begin. */
  lemma {:induction false} Located<S>(g: Gate<S>, s: S, t: Text, k: nat) returns (a: Text)
    requires 0 < k <= |Accepted(Judge(g, s, t))|
    ensures a <= t && g.permits(Stage(g, s, a))
    ensures Accepted(Judge(g, Stage(g, s, a), t[|a|..])) == Last(Accepted(Judge(g, s, t)), k)
    decreases |t|
  {
    AcceptedHead(g, s, t);
    if g.permits(s) && k == |Accepted(Judge(g, s, t))| {
      a := [];
      assert t[|a|..] == t;
    } else {
      var b := Located(g, g.next(s, t[0]), t[1..], k);
      a := [t[0]] + b;
      assert a[1..] == b && t[|a|..] == t[1..][|b|..];
    }
  }

  /** Every key, begun anywhere where it may begin, is carried to its end. */
  ghost predicate CarriesKeys<S>(g: Gate<S>, start: S, book: Book) {
    forall t, w :: book.Fires(w) && g.permits(Stage(g, start, t)) ==> Carries(g, Stage(g, start, t), w)
  }

  lemma CarriedIsUnbroken<S>(g: Gate<S>, start: S, book: Book, t: Text, k: nat)
    requires CarriesKeys(g, start, book)
    requires k <= |Accepted(Judge(g, start, t))| && book.Fires(Last(Accepted(Judge(g, start, t)), k))
    ensures k <= |t| && Unbroken(Judge(g, start, t), k)
  {
    hide Judge, Accepted, Carries;
    var w := Last(Accepted(Judge(g, start, t)), k);
    var a := Located(g, start, t, k);
    var b := t[|a|..];
    assert t == a + b;
    JudgeAppend(g, start, a, b);
    CarriedIsWhole(g, Stage(g, start, a), b, w);
  }

  /** After a permitted byte that stops the gate, `reopen` is rejected and opens it again; it
  does not end with such a byte. */
  ghost predicate Reopens<S(!new)>(g: Gate<S>, reopen: Text) {
    reopen != [] && forall s, c :: g.permits(s) && !g.permits(g.next(s, c)) ==>
      && c != reopen[|reopen| - 1]
      && Accepted(Judge(g, g.next(s, c), reopen)) == [] && g.permits(Stage(g, g.next(s, c), reopen))
  }

  /** A text whose accepted bytes are `w`. */
  function Woven<S>(g: Gate<S>, s: S, w: Text, reopen: Text): Text
    decreases |w|
  {
    if w == [] then []
    else
      var u := g.next(s, w[0]);
      if g.permits(u) then [w[0]] + Woven(g, u, w[1..], reopen)
      else [w[0]] + (reopen + Woven(g, Stage(g, u, reopen), w[1..], reopen))
  }

  lemma {:induction false} WovenIsAccepted<S(!new)>(g: Gate<S>, s: S, w: Text, reopen: Text)
    requires Reopens(g, reopen) && g.permits(s)
    ensures Accepted(Judge(g, s, Woven(g, s, w, reopen))) == w
    ensures |w| <= |Woven(g, s, w, reopen)|
    ensures !Carries(g, s, w) ==> |w| < |Woven(g, s, w, reopen)|
    ensures g.permits(Stage(g, s, Woven(g, s, w, reopen)))
    decreases |w|
  {
    if w != [] {
      var t, u := Woven(g, s, w, reopen), g.next(s, w[0]);
      AcceptedHead(g, s, t);
      if g.permits(u) {
        WovenIsAccepted(g, u, w[1..], reopen);
        assert t[1..] == Woven(g, u, w[1..], reopen);
      } else {
        var v := Stage(g, u, reopen);
        WovenIsAccepted(g, v, w[1..], reopen);
        assert t[1..] == reopen + Woven(g, v, w[1..], reopen);
        JudgeAppend(g, u, reopen, Woven(g, v, w[1..], reopen));
        AcceptedAppend(Judge(g, u, reopen), Judge(g, v, Woven(g, v, w[1..], reopen)));
      }
    }
  }

  lemma {:induction false} CarriedIsItself<S>(g: Gate<S>, s: S, w: Text, reopen: Text)
    requires Carries(g, s, w)
    ensures Woven(g, s, w, reopen) == w
    decreases |w|
  {
    if w != [] {
      CarriedIsItself(g, g.next(s, w[0]), w[1..], reopen);
    }
  }

  /** Where the gate was last opened again, the text has another byte than what it accepts. */
  lemma {:induction false} WovenDiffers<S(!new)>(g: Gate<S>, s: S, w: Text, reopen: Text) returns (r: nat)
    requires Reopens(g, reopen) && g.permits(s) && !Carries(g, s, w)
    ensures var t := Woven(g, s, w, reopen); r < |w| && r < |t| && t[|t| - 1 - r] != w[|w| - 1 - r]
    decreases |w|
  {
    hide Judge, Stage, Accepted;
    var u := g.next(s, w[0]);
    var v := if g.permits(u) then u else Stage(g, u, reopen);
    if Carries(g, v, w[1..]) {
      CarriedIsItself(g, v, w[1..], reopen);
      r := |w| - 1;
    } else {
      r := WovenDiffers(g, v, w[1..], reopen);
    }
  }

  lemma RawOfJudge<S>(g: Gate<S>, s: S, t: Text)
    ensures Raw(Judge(g, s, t)) == t
  {
    hide Judge, Raw;
    JudgeBytes(g, s, t);
    RawIs(Judge(g, s, t), t);
  }

  lemma {:induction false} JudgeBytes<S>(g: Gate<S>, s: S, t: Text)
    ensures forall i :: 0 <= i < |t| ==> Judge(g, s, t)[i].c == t[i]
    decreases |t|
  {
    if t != [] {
      JudgeBytes(g, g.next(s, t[0]), t[1..]);
    }
  }

  lemma {:induction false} RawIs(js: seq<Judged>, t: Text)
    requires |js| == |t| && forall i :: 0 <= i < |t| ==> js[i].c == t[i]
    ensures Raw(js) == t
    decreases |t|
  {
    if t != [] {
      RawIs(js[..|t| - 1], t[..|t| - 1]);
    }
  }

  /** The last `k` bytes are accepted ones, besides those before. */
  lemma {:induction false} UnbrokenCounts(js: seq<Judged>, k: nat)
    requires k <= |js| && Unbroken(js, k)
    ensures |Accepted(js)| == |Accepted(js[..|js| - k])| + k
    decreases k
  {
    if k == 0 {
      assert js[..|js|] == js;
    } else {
      var n := |js| - 1;
      assert js[..n][..n - (k - 1)] == js[..|js| - k];
      UnbrokenCounts(js[..n], k - 1);
    }
  }

  /** A key that is not carried is broken in the text woven of it. */
  lemma WovenBreaks<S(!new)>(g: Gate<S>, start: S, book: Book, reopen: Text, t: Text, w: Text)
    requires Reopens(g, reopen) && book.Fires(w) && w != []
    requires g.permits(Stage(g, start, t)) && !Carries(g, Stage(g, start, t), w)
    ensures !KeysUnbroken(book, Judge(g, start, t + Woven(g, Stage(g, start, t), w, reopen)))
  {
    hide Book.Fires, Carries, Judge, Stage, Accepted, Woven, Reopens;
    var s := Stage(g, start, t);
    var b := Woven(g, s, w, reopen);
    WovenIsAccepted(g, s, w, reopen);
    JudgeAppend(g, start, t, b);
    var before, rest := Judge(g, start, t), Judge(g, s, b);
    var js := before + rest;
    AcceptedAppend(before, rest);
    assert Last(Accepted(js), |w|) == w;
    assert js[..|js|] == js;
    WovenBegins(g, s, w, reopen);
    var n := |js| - |w|;
    var k := n - |before|;
    assert js[..n] == before + rest[..k];
    AcceptedAppend(before, rest[..k]);
    FirstCounts(rest, k);
    if Unbroken(js, |w|) {
      UnbrokenCounts(js, |w|);
    }
  }

  lemma WovenBegins<S>(g: Gate<S>, s: S, w: Text, reopen: Text)
    requires g.permits(s) && w != []
    ensures var b := Woven(g, s, w, reopen); b != [] && Judge(g, s, b)[0].permitted
  {
  }

  lemma {:induction false} FirstCounts(js: seq<Judged>, n: nat)
    requires 0 < n <= |js| && js[0].permitted
    ensures 0 < |Accepted(js[..n])|
  {
    AcceptedAppend(js[..1], js[1..n]);
    assert js[..n] == js[..1] + js[1..n];
    assert js[..1] == [js[0]] && [js[0]][..0] == [];
    assert Accepted([js[0]]) == Accepted([js[0]][..0]) + [js[0].c];
  }

  /** A gate that can be opened again breaks no key in any text exactly when it carries every
  key that it lets begin. */
  lemma KeysUnbrokenIff<S(!new)>(g: Gate<S>, start: S, book: Book, reopen: Text)
    requires Reopens(g, reopen)
    ensures (forall t :: KeysUnbroken(book, Judge(g, start, t))) <==> CarriesKeys(g, start, book)
  {
    hide Judge, Stage, Carries, Reopens, Accepted, Unbroken;
    if CarriesKeys(g, start, book) {
      forall t
        ensures KeysUnbroken(book, Judge(g, start, t))
      {
        var js := Judge(g, start, t);
        forall n, k | 0 <= n <= |js| && 0 <= k <= |Accepted(js[..n])| && book.Fires(Last(Accepted(js[..n]), k))
          ensures k <= n && Unbroken(js[..n], k)
        {
          JudgePrefix(g, start, t, n);
          CarriedIsUnbroken(g, start, book, t[..n], k);
        }
      }
    } else {
      var t, w :| book.Fires(w) && g.permits(Stage(g, start, t)) && !Carries(g, Stage(g, start, t), w);
      WovenBreaks(g, start, book, reopen, t, w);
    }
  }

  /** The woven text and one byte more: what is cut then is not what was matched. */
  lemma WovenCutsOther<S(!new)>(g: Gate<S>, start: S, book: Book, reopen: Text, t: Text, w: Text)
    requires RenaBook(book) && Safe(book) && Reopens(g, reopen) && book.Fires(w)
    requires g.permits(Stage(g, start, t)) && !Carries(g, Stage(g, start, t), w)
    ensures !CutsMatch(book, Judge(g, start, t + Woven(g, Stage(g, start, t), w, reopen) + [NUL]))
  {
    hide RenaBook, Safe, Book.Fires, Carries, Judge, Stage, Accepted, Woven, Reopens, CutMatches, Run, Raw;
    var s := Stage(g, start, t);
    var b := Woven(g, s, w, reopen);
    WovenIsAccepted(g, s, w, reopen);
    var r := WovenDiffers(g, s, w, reopen);
    JudgeAppend(g, start, t, b);
    AcceptedAppend(Judge(g, start, t), Judge(g, s, b));
    var js := Judge(g, start, t + b);
    RawOfJudge(g, start, t + b);
    assert (t + b)[|t + b| - 1 - r] == b[|b| - 1 - r];
    OtherCut(book, js, Accepted(Judge(g, start, t)), w, r, NUL);
    JudgeAppend(g, start, t + b, [NUL]);
    OneJudged(g, Stage(g, start, t + b), NUL);
    var all := Judge(g, start, t + b + [NUL]);
    assert all[..|js|] == js && all[|js|] == Judged(NUL, true);
  }

  lemma OneJudged<S>(g: Gate<S>, s: S, c: byte)
    ensures Judge(g, s, [c]) == [Judged(c, g.permits(s))]
  {
  }

  /** On a safe rule set, with a gate that can be opened again, what is cut is what was
  matched, on every text, exactly when the gate carries every key that it lets begin. */
  lemma CutsMatchIff<S(!new)>(g: Gate<S>, start: S, book: Book, reopen: Text)
    requires RenaBook(book) && Safe(book) && Reopens(g, reopen)
    ensures (forall t :: CutsMatch(book, Judge(g, start, t))) <==> CarriesKeys(g, start, book)
  {
    hide RenaBook, Safe, Judge, Stage, Carries, Reopens, KeysUnbroken, CutsMatch;
    KeysUnbrokenIff(g, start, book, reopen);
    if CarriesKeys(g, start, book) {
      forall t
        ensures CutsMatch(book, Judge(g, start, t))
      {
        assert KeysUnbroken(book, Judge(g, start, t));
        UnbrokenCutsMatch(book, Judge(g, start, t));
      }
    } else {
      var t, w :| book.Fires(w) && g.permits(Stage(g, start, t)) && !Carries(g, Stage(g, start, t), w);
      WovenCutsOther(g, start, book, reopen, t, w);
    }
  }

  /** The bytes of a text with a context's verdicts on them. */
  function JudgedBy(t: Text, verdicts: seq<bool>): (js: seq<Judged>)
    requires |t| == |verdicts|
    ensures |js| == |t| && forall i :: 0 <= i < |t| ==> js[i] == Judged(t[i], verdicts[i])
  {
    seq(|t|, i requires 0 <= i < |t| => Judged(t[i], verdicts[i]))
  }

  // ----- HTML

  const HTML := Gate(HtmlContext.Next, HtmlContext.Permits)

  function HtmlJudged(t: Text): seq<Judged> {
    JudgedBy(t, HtmlContext.Verdicts(HtmlContext.START, t))
  }

  lemma {:induction false} HtmlIsGate(s: HtmlContext.State, t: Text)
    ensures JudgedBy(t, HtmlContext.Verdicts(s, t)) == Judge(HTML, s, t)
    decreases |t|
  {
    hide HtmlContext.Next, HtmlContext.Permits, JudgedBy;
    if t == [] {
      assert Judge(HTML, s, t) == [] == JudgedBy(t, HtmlContext.Verdicts(s, t));
    } else {
      var u := HtmlContext.Next(s, t[0]);
      HtmlIsGate(u, t[1..]);
      JudgedHead(t, HtmlContext.Permits(s), HtmlContext.Verdicts(u, t[1..]));
    }
  }

  lemma HtmlStep(s: HtmlContext.State, c: byte)
    ensures HtmlContext.Permits(s) && !HtmlContext.Permits(HtmlContext.Next(s, c)) ==>
      c == HtmlContext.LESS && HtmlContext.Next(s, c) == HtmlContext.State(HtmlContext.INSIDE_TAG_0, true)
  {
  }

  const HTML_REOPEN: Text := [120, HtmlContext.EQUALS]

  /** A tag's `x=` is not matched; the value after it is. */
  lemma HtmlReopens()
    ensures Reopens(HTML, HTML_REOPEN)
  {
    hide HtmlContext.Next, HtmlContext.Permits, Judge, Stage;
    forall s, c | HTML.permits(s) && !HTML.permits(HTML.next(s, c))
      ensures c != HTML_REOPEN[1]
      ensures Accepted(Judge(HTML, HTML.next(s, c), HTML_REOPEN)) == []
      ensures HTML.permits(Stage(HTML, HTML.next(s, c), HTML_REOPEN))
    {
      HtmlStep(s, c);
      HtmlTagReopens();
    }
  }

  lemma TwoBytes<S>(g: Gate<S>, s: S, a: byte, b: byte)
    ensures Judge(g, s, [a, b]) == [Judged(a, g.permits(s)), Judged(b, g.permits(g.next(s, a)))]
    ensures Stage(g, s, [a, b]) == g.next(g.next(s, a), b)
  {
    assert [a, b][1..] == [b] && [b][1..] == [];
    StageHead(g, s, [a, b]);
    StageHead(g, g.next(s, a), [b]);
    StageNothing(g, g.next(g.next(s, a), b));
  }

  lemma NoneAccepted(a: byte, b: byte)
    ensures Accepted([Judged(a, false), Judged(b, false)]) == []
  {
    var first, second := Judged(a, false), Judged(b, false);
    AcceptedAppend([first], [second]);
    assert [first][..0] == [] && [second][..0] == [] && [first] + [second] == [first, second];
    assert Accepted([first]) == Accepted([first][..0]) && Accepted([second]) == Accepted([second][..0]);
  }

  lemma HtmlTagReopens()
    ensures var s := HtmlContext.State(HtmlContext.INSIDE_TAG_0, true);
      Accepted(Judge(HTML, s, HTML_REOPEN)) == [] && HTML.permits(Stage(HTML, s, HTML_REOPEN))
  {
    hide Judge, Stage, Accepted;
    TwoBytes(HTML, HtmlContext.State(HtmlContext.INSIDE_TAG_0, true), 120, HtmlContext.EQUALS);
    NoneAccepted(120, HtmlContext.EQUALS);
  }

  lemma {:induction false} HtmlCarries(s: HtmlContext.State, w: Text)
    requires HtmlContext.Permits(s) && HtmlContext.LESS !in w
    ensures Carries(HTML, s, w)
    decreases |w|
  {
    hide HtmlContext.Next, HtmlContext.Permits;
    if w != [] {
      HtmlStep(s, w[0]);
      HtmlCarries(HtmlContext.Next(s, w[0]), w[1..]);
    }
  }

  const OUTSIDE := HtmlContext.State(HtmlContext.OUTSIDE_TAG, false)

  /** Outside a tag a `<` stops the gate. */
  lemma {:induction false} HtmlStops(w: Text)
    requires HtmlContext.LESS in w
    ensures !Carries(HTML, OUTSIDE, w)
    decreases |w|
  {
    if w[0] != HtmlContext.LESS {
      HtmlStops(w[1..]);
    }
  }

  const HTML_OPENING: Text := [HtmlContext.LESS, HtmlContext.EQUALS, 120, HtmlContext.GREATER, HtmlContext.GREATER]

  lemma HtmlOpens()
    ensures Stage(HTML, HtmlContext.START, HTML_OPENING) == OUTSIDE
  {
    hide Stage;
    var s := HtmlContext.START;
    StageHead(HTML, s, HTML_OPENING);
    var s1 := HtmlContext.Next(s, HtmlContext.LESS);
    StageHead(HTML, s1, HTML_OPENING[1..]);
    var s2 := HtmlContext.Next(s1, HtmlContext.EQUALS);
    StageHead(HTML, s2, HTML_OPENING[2..]);
    var s3 := HtmlContext.Next(s2, 120);
    TwoBytes(HTML, s3, HtmlContext.GREATER, HtmlContext.GREATER);
    assert HTML_OPENING[1..][1..] == HTML_OPENING[2..];
    assert HTML_OPENING[2..][1..] == [HtmlContext.GREATER, HtmlContext.GREATER];
  }

  lemma StageHead<S>(g: Gate<S>, s: S, t: Text)
    requires t != []
    ensures Stage(g, s, t) == Stage(g, g.next(s, t[0]), t[1..])
  {
  }

  lemma HtmlCarriesKeysIff(book: Book)
    ensures CarriesKeys(HTML, HtmlContext.START, book) <==> forall w :: book.Fires(w) ==> HtmlContext.LESS !in w
  {
    hide Book.Fires, Stage, Carries, HtmlContext.Permits;
    if forall w :: book.Fires(w) ==> HtmlContext.LESS !in w {
      forall t, w | book.Fires(w) && HTML.permits(Stage(HTML, HtmlContext.START, t))
        ensures Carries(HTML, Stage(HTML, HtmlContext.START, t), w)
      {
        HtmlCarries(Stage(HTML, HtmlContext.START, t), w);
      }
    } else {
      var w :| book.Fires(w) && HtmlContext.LESS in w;
      HtmlOpens();
      OutsidePermits();
      HtmlStops(w);
      assert HTML.permits(Stage(HTML, HtmlContext.START, HTML_OPENING));
    }
  }

  /** In HTML no text has a broken key exactly when no key has a `<`. */
  lemma HtmlKeysUnbrokenIff(book: Book)
    ensures (forall t :: KeysUnbroken(book, HtmlJudged(t))) <==> forall w :: book.Fires(w) ==> HtmlContext.LESS !in w
  {
    hide Book.Fires, KeysUnbroken, Judge, CarriesKeys;
    HtmlReopens();
    KeysUnbrokenIff(HTML, HtmlContext.START, book, HTML_REOPEN);
    HtmlCarriesKeysIff(book);
    if CarriesKeys(HTML, HtmlContext.START, book) {
      forall t
        ensures KeysUnbroken(book, HtmlJudged(t))
      {
        HtmlIsGate(HtmlContext.START, t);
        assert KeysUnbroken(book, Judge(HTML, HtmlContext.START, t));
      }
    } else {
      var t :| !KeysUnbroken(book, Judge(HTML, HtmlContext.START, t));
      HtmlIsGate(HtmlContext.START, t);
      assert !KeysUnbroken(book, HtmlJudged(t));
    }
  }

  lemma OutsidePermits()
    ensures HtmlContext.Permits(OUTSIDE)
  {
  }

  /** On a safe rule set what is cut in HTML is what was matched, on every text, exactly when no
  key has a `<`. */
  lemma HtmlCutsMatchIff(book: Book)
    requires RenaBook(book) && Safe(book)
    ensures (forall t :: CutsMatch(book, HtmlJudged(t))) <==> forall w :: book.Fires(w) ==> HtmlContext.LESS !in w
  {
    hide RenaBook, Safe, Book.Fires, CutsMatch, Judge, CarriesKeys;
    HtmlReopens();
    CutsMatchIff(HTML, HtmlContext.START, book, HTML_REOPEN);
    HtmlCarriesKeysIff(book);
    if CarriesKeys(HTML, HtmlContext.START, book) {
      forall t
        ensures CutsMatch(book, HtmlJudged(t))
      {
        HtmlIsGate(HtmlContext.START, t);
        assert CutsMatch(book, Judge(HTML, HtmlContext.START, t));
      }
    } else {
      var t :| !CutsMatch(book, Judge(HTML, HtmlContext.START, t));
      HtmlIsGate(HtmlContext.START, t);
      assert !CutsMatch(book, HtmlJudged(t));
    }
  }

  /** On a safe rule set without a `<` in a key every cut in HTML spells its key. */
  lemma HtmlCutsSpellKeys(book: Book, t: Text)
    requires RenaBook(book) && Safe(book)
    requires forall w :: book.Fires(w) ==> HtmlContext.LESS !in w
    ensures AllSpelled(book, Run(book, HtmlJudged(t)).done)
  {
    hide RenaBook, Safe, Book.Fires, KeysUnbroken, AllSpelled, Run, JudgedBy;
    HtmlKeysUnbrokenIff(book);
    CutsSpellKeys(book, HtmlJudged(t));
  }

  // ----- links

  const LINK := Gate(FullLinkContext.Next, FullLinkContext.Permits)

  function LinkJudged(t: Text): seq<Judged> {
    JudgedBy(t, FullLinkContext.Verdicts(FullLinkContext.None, t))
  }

  lemma {:induction false} LinkIsGate(s: FullLinkContext.Stage, t: Text)
    ensures JudgedBy(t, FullLinkContext.Verdicts(s, t)) == Judge(LINK, s, t)
    decreases |t|
  {
    hide FullLinkContext.Next, FullLinkContext.Permits, FullLinkContext.Verdicts, JudgedBy;
    if t == [] {
      assert Judge(LINK, s, t) == [] == JudgedBy(t, FullLinkContext.Verdicts(s, t));
    } else {
      var u := FullLinkContext.Next(s, t[0]);
      LinkIsGate(u, t[1..]);
      LinkVerdictsHead(s, t);
      JudgedHead(t, FullLinkContext.Permits(s), FullLinkContext.Verdicts(u, t[1..]));
    }
  }

  lemma LinkVerdictsHead(s: FullLinkContext.Stage, t: Text)
    requires t != []
    ensures FullLinkContext.Verdicts(s, t) ==
      [FullLinkContext.Permits(s)] + FullLinkContext.Verdicts(FullLinkContext.Next(s, t[0]), t[1..])
  {
    hide FullLinkContext.Verdicts, FullLinkContext.After;
    FullLinkContext.RunAppend(s, [t[0]], t[1..]);
    FullLinkContext.OneByte(s, t[0]);
    assert t == [t[0]] + t[1..];
  }

  lemma JudgedHead(t: Text, permitted: bool, verdicts: seq<bool>)
    requires |t| == |verdicts| + 1
    ensures JudgedBy(t, [permitted] + verdicts) == [Judged(t[0], permitted)] + JudgedBy(t[1..], verdicts)
  {
  }

  const LINK_REOPEN: Text := [FullLinkContext.SLASH, FullLinkContext.SLASH]

  lemma LinkReopens()
    ensures Reopens(LINK, LINK_REOPEN)
  {
    hide Judge, Stage, Accepted;
    forall s, c | LINK.permits(s) && !LINK.permits(LINK.next(s, c))
      ensures c != LINK_REOPEN[1]
      ensures Accepted(Judge(LINK, LINK.next(s, c), LINK_REOPEN)) == []
      ensures LINK.permits(Stage(LINK, LINK.next(s, c), LINK_REOPEN))
    {
      TwoBytes(LINK, LINK.next(s, c), FullLinkContext.SLASH, FullLinkContext.SLASH);
      NoneAccepted(FullLinkContext.SLASH, FullLinkContext.SLASH);
    }
  }

  /** From the beginning of a link's body on, exactly the texts that do not end it are carried. */
  lemma {:induction false} LinkCarriesIff(w: Text)
    ensures Carries(LINK, FullLinkContext.Allowed, w) <==> FullLinkContext.Unended(w)
    decreases |w|
  {
    hide FullLinkContext.IsDelim, FullLinkContext.IsEscape;
    if w != [] && w[0] != FullLinkContext.BACKSLASH {
      LinkCarriesIff(w[1..]);
    } else if 1 < |w| {
      LinkCarriesIff(w[2..]);
      CarriesHead(LINK, FullLinkContext.Allowed, w);
      CarriesHead(LINK, FullLinkContext.AllowedS, w[1..]);
      assert w[1..][1..] == w[2..];
    }
  }

  lemma CarriesHead<S>(g: Gate<S>, s: S, w: Text)
    requires w != []
    ensures Carries(g, s, w) == (g.permits(s) && Carries(g, g.next(s, w[0]), w[1..]))
  {
  }

  /** A key that ends no link, neither where it begins nor right behind a backslash. */
  predicate LinkKey(w: Text) {
    && FullLinkContext.Unended(w)
    && (w != [] ==> !FullLinkContext.IsEscape(w[0]) && FullLinkContext.Unended(w[1..]))
  }

  lemma LinkKeyCarries(w: Text, s: FullLinkContext.Stage)
    ensures FullLinkContext.Permits(s) && LinkKey(w) ==> Carries(LINK, s, w)
    ensures !LinkKey(w) ==>
      !Carries(LINK, FullLinkContext.Allowed, w) || !Carries(LINK, FullLinkContext.AllowedS, w)
  {
    hide FullLinkContext.IsDelim, FullLinkContext.IsEscape, FullLinkContext.Unended;
    LinkCarriesIff(w);
    if w != [] {
      LinkCarriesIff(w[1..]);
    }
  }

  lemma LinkOpens()
    ensures Stage(LINK, FullLinkContext.None, LINK_REOPEN) == FullLinkContext.Allowed
    ensures Stage(LINK, FullLinkContext.None, LINK_REOPEN + [FullLinkContext.BACKSLASH]) == FullLinkContext.AllowedS
  {
    hide Stage, Judge;
    TwoBytes(LINK, FullLinkContext.None, FullLinkContext.SLASH, FullLinkContext.SLASH);
    JudgeAppend(LINK, FullLinkContext.None, LINK_REOPEN, [FullLinkContext.BACKSLASH]);
    StageHead(LINK, FullLinkContext.Allowed, [FullLinkContext.BACKSLASH]);
    assert [FullLinkContext.BACKSLASH][1..] == [];
    StageNothing(LINK, FullLinkContext.AllowedS);
  }

  lemma StageNothing<S>(g: Gate<S>, s: S)
    ensures Stage(g, s, []) == s
  {
  }

  lemma LinkCarriesKeysIff(book: Book)
    ensures CarriesKeys(LINK, FullLinkContext.None, book) <==> forall w :: book.Fires(w) ==> LinkKey(w)
  {
    hide Book.Fires, Stage, Carries, LinkKey;
    if forall w :: book.Fires(w) ==> LinkKey(w) {
      forall t, w | book.Fires(w) && LINK.permits(Stage(LINK, FullLinkContext.None, t))
        ensures Carries(LINK, Stage(LINK, FullLinkContext.None, t), w)
      {
        LinkKeyCarries(w, Stage(LINK, FullLinkContext.None, t));
      }
    } else {
      var w :| book.Fires(w) && !LinkKey(w);
      LinkOpens();
      LinkKeyCarries(w, FullLinkContext.Allowed);
      assert LINK.permits(Stage(LINK, FullLinkContext.None, LINK_REOPEN));
      assert LINK.permits(Stage(LINK, FullLinkContext.None, LINK_REOPEN + [FullLinkContext.BACKSLASH]));
    }
  }

  /** In links no text has a broken key exactly when no key ends a link. */
  lemma LinkKeysUnbrokenIff(book: Book)
    ensures (forall t :: KeysUnbroken(book, LinkJudged(t))) <==> forall w :: book.Fires(w) ==> LinkKey(w)
  {
    hide Book.Fires, KeysUnbroken, Judge, CarriesKeys, LinkKey;
    LinkReopens();
    KeysUnbrokenIff(LINK, FullLinkContext.None, book, LINK_REOPEN);
    LinkCarriesKeysIff(book);
    if CarriesKeys(LINK, FullLinkContext.None, book) {
      forall t
        ensures KeysUnbroken(book, LinkJudged(t))
      {
        LinkIsGate(FullLinkContext.None, t);
        assert KeysUnbroken(book, Judge(LINK, FullLinkContext.None, t));
      }
    } else {
      var t :| !KeysUnbroken(book, Judge(LINK, FullLinkContext.None, t));
      LinkIsGate(FullLinkContext.None, t);
      assert !KeysUnbroken(book, LinkJudged(t));
    }
  }

  /** On a safe rule set what is cut in links is what was matched, on every text, exactly when
  no key ends a link. */
  lemma LinkCutsMatchIff(book: Book)
    requires RenaBook(book) && Safe(book)
    ensures (forall t :: CutsMatch(book, LinkJudged(t))) <==> forall w :: book.Fires(w) ==> LinkKey(w)
  {
    hide RenaBook, Safe, Book.Fires, CutsMatch, Judge, CarriesKeys, LinkKey;
    LinkReopens();
    CutsMatchIff(LINK, FullLinkContext.None, book, LINK_REOPEN);
    LinkCarriesKeysIff(book);
    if CarriesKeys(LINK, FullLinkContext.None, book) {
      forall t
        ensures CutsMatch(book, LinkJudged(t))
      {
        LinkIsGate(FullLinkContext.None, t);
        assert CutsMatch(book, Judge(LINK, FullLinkContext.None, t));
      }
    } else {
      var t :| !CutsMatch(book, Judge(LINK, FullLinkContext.None, t));
      LinkIsGate(FullLinkContext.None, t);
      assert !CutsMatch(book, LinkJudged(t));
    }
  }

  /** On a safe rule set without a key that ends a link every cut in links spells its key. */
  lemma LinkCutsSpellKeys(book: Book, t: Text)
    requires RenaBook(book) && Safe(book)
    requires forall w :: book.Fires(w) ==> LinkKey(w)
    ensures AllSpelled(book, Run(book, LinkJudged(t)).done)
  {
    hide RenaBook, Safe, Book.Fires, KeysUnbroken, AllSpelled, Run, JudgedBy, LinkKey;
    LinkKeysUnbrokenIff(book);
    CutsSpellKeys(book, LinkJudged(t));
  }

  // ----- a key in two links

  const F: byte := 102
  const B: byte := 98
  const C: byte := 99

  /** The rule set with the one key "fb". */
  function OneRule(put: Text): Book {
    Book(Dict({[F], [F, B]}, map[[F, B] := put]), Dict({}, map[]), -129)
  }

  /** It is what inserting that key leaves. */
  lemma OneRuleInserted(put: Text)
    ensures RenaProxy.RuleBook([Insertion([F, B], Some(put))], []) == OneRule(put)
  {
    hide RenaTrie.GoodLen;
    var r := Insertion([F, B], Some(put));
    assert [r][..0] == [];
    LowerIsGood(EMPTY.d, r.key);
    var k := RenaTrie.KeyOf(r.key);
    assert k == [F, B] && k[..2] == k && k[..1] == [F];
    forall p
      ensures p in Prefixes(k) <==> p in {[F], [F, B]}
    {
      InPrefixes(k, p);
      if p != [] && p <= k {
        assert p == k[..|p|];
      }
    }
    assert {} + Prefixes(k) == {[F], [F, B]};
  }

  /** `//\f//bc`: the escaped form feed ends the first link, and "b" begins the second. */
  const TWO_LINKS: Text := [47, 47, 92, F, 47, 47, B, C]

  lemma TwoLinksJudged()
    ensures LinkJudged(TWO_LINKS) ==
      [Judged(47, false), Judged(47, false), Judged(92, true), Judged(F, true),
       Judged(47, false), Judged(47, false), Judged(B, true), Judged(C, true)]
  {
    hide Judge, Stage;
    LinkIsGate(FullLinkContext.None, TWO_LINKS);
    var s := FullLinkContext.None;
    JudgeAppend(LINK, s, [47, 47], [92, F, 47, 47, B, C]);
    JudgeAppend(LINK, FullLinkContext.Allowed, [92, F], [47, 47, B, C]);
    JudgeAppend(LINK, s, [47, 47], [B, C]);
    TwoBytes(LINK, s, 47, 47);
    TwoBytes(LINK, FullLinkContext.Allowed, 92, F);
    TwoBytes(LINK, FullLinkContext.Allowed, B, C);
    assert [47, 47] + [92, F, 47, 47, B, C] == TWO_LINKS && [92, F] + [47, 47, B, C] == [92, F, 47, 47, B, C];
    assert [47, 47] + [B, C] == [47, 47, B, C];
  }

  lemma OneRuleNodes(put: Text)
    ensures var (book, f, fb) := (OneRule(put), Node(false, [F]), Node(false, [F, B]));
      && SuffixesUp(book, []) == [] && SuffixesUp(book, [92]) == []
      && SuffixesUp(book, [92, F]) == [f] && SuffixesUp(book, [92, F, B]) == [fb]
      && Advance(book, [], 92) == [] && Advance(book, [], F) == []
      && Advance(book, [f], B) == [fb] && Advance(book, [fb], C) == []
      && Best(book, None, []) == None && Best(book, None, [fb]) == Some(Hit(put, 2))
  {
    hide SuffixesUp, Here;
    var book := OneRule(put);
    assert [92][1..] == [] && [92, F][1..] == [F] && [F][1..] == [];
    assert [92, F, B][1..] == [F, B] && [F, B][1..] == [B] && [B][1..] == [];
    NothingUp(book);
    UpStep(book, [92]);
    UpStep(book, [F]);
    UpStep(book, [92, F]);
    UpStep(book, [B]);
    UpStep(book, [F, B]);
    UpStep(book, [92, F, B]);
    OneRuleHere(put);
    assert [F] + [B] == [F, B] && [F, B] + [C] == [F, B, C];
  }

  lemma NothingUp(book: Book)
    ensures SuffixesUp(book, []) == []
  {
  }

  lemma UpStep(book: Book, p: Text)
    requires p != []
    ensures SuffixesUp(book, p) == SuffixesUp(book, p[1..]) + Here(book, p)
  {
  }

  lemma OneRuleHere(put: Text)
    ensures var book := OneRule(put);
      && Here(book, [92]) == Here(book, [92, F]) == Here(book, [92, F, B]) == Here(book, [B]) == []
      && Here(book, [F]) == [Node(false, [F])] && Here(book, [F, B]) == [Node(false, [F, B])]
  {
    hide LowerText;
    OneRuleHasIff(put, [92]);
    OneRuleHasIff(put, [92, F]);
    OneRuleHasIff(put, [92, F, B]);
    OneRuleHasIff(put, [B]);
    OneRuleHasIff(put, [F]);
    OneRuleHasIff(put, [F, B]);
  }

  lemma OneRuleHasIff(put: Text, p: Text)
    requires IsLowerText(p)
    ensures LowerText(p) == p
    ensures OneRule(put).first.HasNode(p) <==> p == [F] || p == [F, B]
    ensures !OneRule(put).second.HasNode(p)
  {
    LowerIsSelf(p);
  }

  /** The matcher sees "fb"; what is cut is "/b", with bytes of the second link's opening. */
  lemma BrokenKeyCutsOther(put: Text)
    ensures Run(OneRule(put), LinkJudged(TWO_LINKS)).done == [Piece([47, 47, 92, F, 47], [47, B], put)]
  {
    hide Run, Step, OneRule;
    var book := OneRule(put);
    TwoLinksJudged();
    var x, e, f, b, c := Judged(47, false), Judged(92, true), Judged(F, true), Judged(B, true), Judged(C, true);
    RunNothing(book);
    RunTwo(book, [], x, x);
    RunTwo(book, [x, x], e, f);
    RunTwo(book, [x, x, e, f], x, x);
    RunTwo(book, [x, x, e, f, x, x], b, c);
    assert [] + [x, x] == [x, x] && [x, x] + [e, f] == [x, x, e, f] && [x, x, e, f] + [x, x] == [x, x, e, f, x, x];
    assert [x, x, e, f, x, x] + [b, c] == LinkJudged(TWO_LINKS);
    FirstLink(put);
    SecondLink(put);
  }

  lemma RunNothing(book: Book)
    ensures Run(book, []) == START
  {
  }

  lemma RunTwo(book: Book, js: seq<Judged>, i: Judged, j: Judged)
    ensures Run(book, js + [i, j]) == Step(book, Step(book, Run(book, js), i.c, i.permitted), j.c, j.permitted)
  {
    hide Step;
    assert (js + [i, j])[..|js| + 1] == js + [i] && (js + [i])[..|js|] == js;
  }

  lemma FirstLink(put: Text)
    ensures var book := OneRule(put);
      && Step(book, START, 47, false) == State([], None, [], [47], [], false)
      && Step(book, State([], None, [], [47], [], false), 47, false) == State([], None, [], [47, 47], [], false)
      && Step(book, State([], None, [], [47, 47], [], false), 92, true) ==
        State([92], None, [], [47, 47, 92], [], false)
      && Step(book, State([92], None, [], [47, 47, 92], [], false), F, true) ==
        State([92, F], None, [], [47, 47, 92], [F], false)
  {
    hide SuffixesUp, Advance, Best, OneRule;
    OneRuleNodes(put);
    assert [] + [47] == [47] && [47] + [47] == [47, 47] && [47, 47] + [92] == [47, 47, 92];
    assert [] + [92] == [92] && [92] + [F] == [92, F] && [] + [F] == [F];
  }

  lemma SecondLink(put: Text)
    ensures var (book, out) := (OneRule(put), [47, 47, 92]);
      var s := State([92, F, B], Some(Hit(put, 2)), [], out, [F, 47, 47, B], false);
      && Step(book, State([92, F], None, [], out, [F], false), 47, false) ==
        State([92, F], None, [], out, [F, 47], false)
      && Step(book, State([92, F], None, [], out, [F, 47], false), 47, false) ==
        State([92, F], None, [], out, [F, 47, 47], false)
      && Step(book, State([92, F], None, [], out, [F, 47, 47], false), B, true) == s
      && Step(book, s, C, true).done == [Piece([47, 47, 92, F, 47], [47, B], put)]
  {
    hide SuffixesUp, Advance, Best, OneRule;
    OneRuleNodes(put);
    BestOfNone(OneRule(put), Some(Hit(put, 2)));
    assert [F] + [47] == [F, 47] && [F, 47] + [47] == [F, 47, 47] && [F, 47, 47] + [B] == [F, 47, 47, B];
    assert [92, F] + [B] == [92, F, B];
    assert [F, 47, 47, B][..2] == [F, 47] && [F, 47, 47, B][2..] == [47, B];
    assert [47, 47, 92] + [F, 47] == [47, 47, 92, F, 47];
  }
}
