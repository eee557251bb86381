/** Rule tries seen as dictionaries, and the whole-text rewriting they denote.

A node of a trie is named by the lower-cased bytes that lead to it from the root. */
module Rules {
  import opened Bytes
  import opened Wrappers

  /** The nodes of a trie, and the replacement stored at those that end a key. */
  datatype Dict = Dict(paths: set<Text>, rule: map<Text, Text>) {
    ghost predicate WellFormed() {
      && (forall p :: p in rule ==> p in paths)
      && (forall p :: p in paths && 1 < |p| ==> p[..|p| - 1] in paths)
    }

    predicate HasNode(w: Text) {
      LowerText(w) in paths
    }

    predicate HasKey(w: Text) {
      LowerText(w) in rule
    }
  }

  /** The two tries a stream is matched against. `first` wins when both have a key
  at the same place; a match may only begin on a byte above `floor`. */
  datatype Book = Book(first: Dict, second: Dict, floor: int) {
    ghost predicate WellFormed() {
      first.WellFormed() && second.WellFormed()
    }

    /** `w` spells a key that is long enough to fire. */
    predicate Fires(w: Text) {
      2 <= |w| && w[0] as int > floor && (first.HasKey(w) || second.HasKey(w))
    }

    function Replacement(w: Text): Text
      requires Fires(w)
    {
      if first.HasKey(w) then first.rule[LowerText(w)] else second.rule[LowerText(w)]
    }
  }

  /** Some key ends at position `e` of `t`. */
  predicate KeyEndsAt(book: Book, t: Text, e: nat)
    requires e <= |t|
  {
    exists s | 0 <= s < e :: book.Fires(t[s..e])
  }

  /** The smallest position from `from` on where some key ends. */
  function FirstEnd(book: Book, t: Text, from: nat): (e: Option<nat>)
    requires from <= |t|
    ensures e.Some? ==> from <= e.value <= |t| && 0 < e.value && KeyEndsAt(book, t, e.value)
    ensures e.Some? ==> forall i :: from <= i < e.value ==> !KeyEndsAt(book, t, i)
    ensures e.None? ==> forall i :: from <= i <= |t| ==> !KeyEndsAt(book, t, i)
    decreases |t| - from
  {
    if KeyEndsAt(book, t, from) then Some(from)
    else if from == |t| then None
    else FirstEnd(book, t, from + 1)
  }

  /** Where the longest key ending at the end of `t` begins. */
  function LongestStart(book: Book, t: Text, from: nat): (s: nat)
    requires exists i | from <= i < |t| :: book.Fires(t[i..])
    ensures from <= s < |t| && book.Fires(t[s..])
    ensures forall i :: from <= i < s ==> !book.Fires(t[i..])
    decreases |t| - from
  {
    if book.Fires(t[from..]) then from else LongestStart(book, t, from + 1)
  }

  /** Where the longest of the keys that end with `t` begins. */
  function KeyStart(book: Book, t: Text): (s: nat)
    requires KeyEndsAt(book, t, |t|)
    ensures s + 2 <= |t| && book.Fires(t[s..])
    ensures forall i :: 0 <= i < s ==> !book.Fires(t[i..])
  {
    EndGivesStart(book, t);
    LongestStart(book, t, 0)
  }

  lemma EndGivesStart(book: Book, t: Text)
    requires KeyEndsAt(book, t, |t|)
    ensures exists i | 0 <= i < |t| :: book.Fires(t[i..])
  {
    var s :| 0 <= s < |t| && book.Fires(t[s..|t|]);
    assert t[s..] == t[s..|t|];
  }

  /** One replacement: `before` is kept, then `cut` is replaced by `put`. */
  datatype Piece = Piece(before: Text, cut: Text, put: Text)

  /** A text split into replacements and an untouched tail. */
  datatype Rewriting = Rewriting(pieces: seq<Piece>, tail: Text)

  function Source(ps: seq<Piece>): Text {
    if ps == [] then [] else Source(ps[..|ps| - 1]) + ps[|ps| - 1].before + ps[|ps| - 1].cut
  }

  function Rendered(ps: seq<Piece>): Text {
    if ps == [] then [] else Rendered(ps[..|ps| - 1]) + ps[|ps| - 1].before + ps[|ps| - 1].put
  }

  lemma RenderedPush(ps: seq<Piece>, p: Piece)
    ensures Rendered(ps + [p]) == Rendered(ps) + p.before + p.put
  {
    assert (ps + [p])[..|ps|] == ps;
  }

  /** The whole-text specification: take the smallest end at which some key matches,
  there the longest key, replace it, and start again after it. */
  function Rewrite(book: Book, t: Text): Rewriting
    decreases |t|
  {
    var e := FirstEnd(book, t, 0);
    if e.None? then Rewriting([], t)
    else
      var u := t[..e.value];
      EndOfPrefix(book, t, e.value);
      var s := KeyStart(book, u);
      var rest := Rewrite(book, t[e.value..]);
      Rewriting([Piece(u[..s], u[s..], book.Replacement(u[s..]))] + rest.pieces, rest.tail)
  }

  lemma EndOfPrefix(book: Book, t: Text, e: nat)
    requires e <= |t|
    ensures KeyEndsAt(book, t[..e], e) == KeyEndsAt(book, t, e)
  {
    assert t[..e] + t[e..] == t;
    KeyEndsStable(book, t[..e], t[e..]);
  }

  /** What one more byte does to a rewriting whose tail is `tail`. */
  function Extend(book: Book, r: Rewriting, c: byte): Rewriting {
    var t := r.tail + [c];
    if KeyEndsAt(book, t, |t|) then
      var s := KeyStart(book, t);
      Rewriting(r.pieces + [Piece(t[..s], t[s..], book.Replacement(t[s..]))], [])
    else
      Rewriting(r.pieces, t)
  }

  /** The specification can be followed one byte at a time. */
  lemma {:induction false} RewriteExtends(book: Book, t: Text, c: byte)
    ensures Rewrite(book, t + [c]) == Extend(book, Rewrite(book, t), c)
    decreases |t|
  {
    hide KeyEndsAt, KeyStart;
    var u := t + [c];
    KeyEndsStable(book, t, [c]);
    var e := FirstEnd(book, t, 0);
    if e.Some? {
      FirstEndStable(book, t, [c]);
      assert u[..e.value] == t[..e.value];
      assert u[e.value..] == t[e.value..] + [c];
      RewriteExtends(book, t[e.value..], c);
    } else {
      var f := FirstEnd(book, u, 0);
      assert f.Some? ==> f.value == |u|;
      if f.Some? {
        assert u[..f.value] == u;
        assert u[f.value..] == [];
        assert Rewrite(book, []) == Rewriting([], []);
      }
    }
  }

  /** Where keys end in `t` does not depend on what follows. */
  lemma KeyEndsStable(book: Book, t: Text, x: Text)
    ensures forall e :: 0 <= e <= |t| ==> KeyEndsAt(book, t + x, e) == KeyEndsAt(book, t, e)
  {
    forall e | 0 <= e <= |t|
      ensures KeyEndsAt(book, t + x, e) == KeyEndsAt(book, t, e)
    {
      forall s | 0 <= s < e
        ensures (t + x)[s..e] == t[s..e]
      {}
      if KeyEndsAt(book, t, e) {
        var s :| 0 <= s < e && book.Fires(t[s..e]);
        assert book.Fires((t + x)[s..e]);
      }
    }
  }

  lemma FirstEndStable(book: Book, t: Text, x: Text)
    requires FirstEnd(book, t, 0).Some?
    ensures FirstEnd(book, t + x, 0) == FirstEnd(book, t, 0)
  {
    KeyEndsStable(book, t, x);
  }

  /** Every non-empty beginning of `k`. */
  function Prefixes(k: Text): set<Text> {
    set i | 1 <= i <= |k| :: k[..i]
  }

  lemma InPrefixes(k: Text, p: Text)
    ensures p in Prefixes(k) <==> p != [] && p <= k
  {
    if p != [] && p <= k {
      assert k[..|p|] == p;
    }
  }

  lemma PrefixesStep(k: Text, s: nat)
    requires s < |k|
    ensures Prefixes(k[..s + 1]) == Prefixes(k[..s]) + {k[..s + 1]}
  {
    var u := k[..s + 1];
    forall p
      ensures p in Prefixes(u) <==> p in Prefixes(k[..s]) || p == u
    {
      if p in Prefixes(u) {
        var i :| 1 <= i <= |u| && u[..i] == p;
        assert i <= s ==> k[..s][..i] == p;
      }
      if p in Prefixes(k[..s]) {
        var i :| 1 <= i <= s && k[..s][..i] == p;
        assert u[..i] == p;
      }
      assert u[..|u|] == u;
    }
  }
}
