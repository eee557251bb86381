/** faproxy's online matcher (`faproxy/src/database_internal.c`). */
module FaLookup {
  import opened Bytes
  import opened Wrappers
  import opened Rules
  import opened PartialMatches

  const ALLOCATED_RESERVE: nat := 16

  datatype Lookup = Lookup(subtree: Node, depth: nat)

  datatype Result = NotHold | FeedMeAndHold | TransformOk(phrase: Text, phraseConsume: nat)

  /** The lookups that stand for a list of trie nodes. */
  function Lookups(ns: seq<Node>): (ls: seq<Lookup>)
    ensures |ls| == |ns|
    ensures forall i :: 0 <= i < |ns| ==> ls[i] == Lookup(ns[i], |ns[i].path|)
  {
    seq(|ns|, i requires 0 <= i < |ns| => Lookup(ns[i], |ns[i].path|))
  }

  /** What the byte `c` decides, given the undecided bytes `pending` before it. */
  ghost predicate Decides(book: Book, pending: Text, c: byte, r: Result, pending': Text)
    requires book.WellFormed()
  {
    var q := pending + [c];
    if KeyEndsAt(book, q, |q|) then
      var s := KeyStart(book, q);
      r == TransformOk(book.Replacement(q[s..]), |q| - s) && pending' == []
    else
      pending' == q && r == if Suffixes(book, q) == [] then NotHold else FeedMeAndHold
  }

  class TransformHandler {
    const book: Book  // first trie: never-proxy, second trie: the direction's renames
    var lookups: array<Lookup>
    var nLookups: nat
    ghost var pending: Text  // the bytes read since the last replacement

    ghost predicate Stored(ns: seq<Node>)
      reads this, lookups
    {
      nLookups <= lookups.Length && lookups[..nLookups] == Lookups(ns)
    }

    ghost predicate Valid()
      reads this, lookups
    {
      book.WellFormed() && book.floor == SPACE as int && Stored(Suffixes(book, pending))
    }

    constructor (never: Dict, other: Dict)
      requires never.WellFormed() && other.WellFormed()
      ensures Valid() && fresh(lookups) && pending == []
      ensures book == Book(never, other, SPACE as int)
    {
      book := Book(never, other, SPACE as int);
      lookups := new Lookup[0];
      nLookups := 0;
      pending := [];
    }

    /** Ends with a plain append; the place the search loop finds is that very place. */
    method InsertBasedOnDepth(e: Lookup)
      requires nLookups <= lookups.Length
      requires e.depth == 1 && |e.subtree.path| == 1
      requires forall i :: 0 <= i < nLookups ==> 1 <= lookups[i].depth
      requires forall i :: 0 <= i < nLookups && lookups[i].depth == 1 ==> lookups[i].subtree.path == e.subtree.path
      modifies this`lookups, this`nLookups, lookups
      ensures lookups == old(lookups) || fresh(lookups)
      ensures nLookups == old(nLookups) + 1 <= lookups.Length
      ensures lookups[..nLookups] == old(lookups[..nLookups]) + [e]
    {
      if 1 + nLookups >= lookups.Length {
        var grown := new Lookup[ALLOCATED_RESERVE + nLookups](_ => e);
        forall i | 0 <= i < nLookups {
          grown[i] := lookups[i];
        }
        lookups := grown;
      }
      var value := e.subtree.path[0];
      var u := 0;
      while u < nLookups
        invariant u <= nLookups
      {
        if lookups[u].depth < e.depth
           || (lookups[u].depth == e.depth && value < lookups[u].subtree.path[|lookups[u].subtree.path| - 1]) {
          break;
        }
        u := u + 1;
      }
      assert u == nLookups;
      lookups[nLookups] := e;
      nLookups := nLookups + 1;
    }

    /** Closes the gap at `at` by moving every later lookup one place down. */
    method RemoveAt(at: nat)
      requires at < nLookups <= lookups.Length
      modifies this`nLookups, lookups
      ensures nLookups == old(nLookups) - 1
      ensures lookups[..nLookups] == old(lookups[..nLookups])[..at] + old(lookups[..nLookups])[at + 1..]
    {
      ghost var was := lookups[..nLookups];
      ghost var target := was[..at] + was[at + 1..];
      var tk := at;
      while tk + 1 < nLookups
        invariant at <= tk < nLookups == old(nLookups)
        invariant forall k :: 0 <= k < tk ==> lookups[k] == target[k]
        invariant forall k :: tk <= k < nLookups ==> lookups[k] == was[k]
      {
        lookups[tk] := lookups[tk + 1];
        tk := tk + 1;
      }
      nLookups := nLookups - 1;
      assert lookups[..nLookups] == target;
    }

    /** The loop over the lookups: advances them all, drops those that cannot read
    `input`, and stops at the first that completes a key. */
    method AdvanceLookups(input: byte, ghost was: seq<Node>) returns (hit: Option<Lookup>)
      requires Stored(was)
      modifies this`nLookups, lookups
      ensures hit.None? ==> FirstRule(book, Advance(book, was, input)).None? && Stored(Advance(book, was, input))
      ensures hit.Some? ==> FirstRule(book, Advance(book, was, input)) == Some(hit.value.subtree)
      ensures hit.Some? ==> nLookups == 0 && hit.value.depth == |hit.value.subtree.path|
    {
      hide Child, RuleAt, Advance;
      NothingAdvances(book, input);
      ghost var done, rest := [], was;
      var i := 0;
      while i < nLookups
        invariant Stored(done + rest) && i == |done|
        invariant Advance(book, was, input) == done + Advance(book, rest, input)
        invariant FirstRule(book, done).None?
        decreases |rest|
      {
        assert lookups[i] == Lookups(done + rest)[i];
        var next := Child(book, lookups[i].subtree, input);
        ghost var ns := if next.Some? then [next.value] else [];
        AdvanceHead(book, done, rest, input);
        MoveOn(i, next, done, rest);
        if next.Some? {
          if RuleAt(book, next.value).Some? {
            hit := Some(lookups[i]);
            nLookups := 0;
            return;
          }
          i := i + 1;
        }
        done, rest := done + ns, rest[1..];
      }
      assert done + rest == done;
      return None;
    }

    /** Drops lookup `i`, or moves it one node down. */
    method MoveOn(i: nat, next: Option<Node>, ghost done: seq<Node>, ghost rest: seq<Node>)
      requires Stored(done + rest) && i == |done| && rest != []
      requires next.Some? ==> |next.value.path| == |rest[0].path| + 1
      modifies this`nLookups, lookups
      ensures Stored(done + (if next.Some? then [next.value] else []) + rest[1..])
      ensures next.Some? ==> i < nLookups && lookups[i] == Lookup(next.value, |next.value.path|)
    {
      StoredStep(done, rest, next);
      if next.None? {
        RemoveAt(i);
        assert done + [] == done;
      } else {
        ghost var view := lookups[..nLookups];
        lookups[i] := Lookup(next.value, lookups[i].depth + 1);
        assert lookups[..nLookups] == view[i := Lookup(next.value, view[i].depth + 1)];
      }
    }

    /** `database_transform_lookup`: feeds one byte to every partial match. */
    method TransformLookup(input: byte) returns (r: Result)
      requires Valid()
      modifies this`lookups, this`nLookups, this`pending, lookups
      ensures Valid() && (lookups == old(lookups) || fresh(lookups))
      ensures Decides(book, old(pending), input, r, pending)
    {
      HitDecides(book, pending, input);
      var hit := AdvanceLookups(input, Suffixes(book, pending));
      if hit.Some? {
        pending := [];
        return TransformOk(RuleAt(book, hit.value.subtree).value, hit.value.depth);
      }
      AdvanceDeepens(book, pending, input);
      StartLookups(input, Advance(book, Suffixes(book, pending), input));
      pending := pending + [input];
      r := if nLookups == 0 then NotHold else FeedMeAndHold;
    }

    /** Opens a lookup at the root of each trie that has a node for `input`. */
    method StartLookups(input: byte, ghost was: seq<Node>)
      requires book.floor == SPACE as int
      requires Stored(was) && forall n :: n in was ==> 2 <= |n.path|
      modifies this`lookups, this`nLookups, lookups
      ensures lookups == old(lookups) || fresh(lookups)
      ensures Stored(was + Here(book, [input]))
    {
      var start := [Lower(input)];
      assert LowerText([input]) == start;
      if input <= SPACE {
        assert was + Here(book, [input]) == was;
        return;
      }
      ghost var ns := was;
      if start in book.first.paths {
        StartLookup(Node(false, start), ns);
        ns := ns + [Node(false, start)];
      }
      if start in book.second.paths {
        StartLookup(Node(true, start), ns);
        ns := ns + [Node(true, start)];
      }
      assert ns == was + Here(book, [input]);
    }

    method StartLookup(n: Node, ghost was: seq<Node>)
      requires |n.path| == 1
      requires Stored(was) && forall m :: m in was ==> 2 <= |m.path| || m.path == n.path
      modifies this`lookups, this`nLookups, lookups
      ensures lookups == old(lookups) || fresh(lookups)
      ensures Stored(was + [n])
    {
      forall i | 0 <= i < nLookups
        ensures lookups[i] == Lookup(was[i], |was[i].path|) && was[i] in was
      {
        assert lookups[i] == Lookups(was)[i];
      }
      InsertBasedOnDepth(Lookup(n, 1));
      assert lookups[..nLookups] == Lookups(was + [n]);
    }
  }

  /** Dropping or moving on the lookup in the middle of the list. */
  lemma StoredStep(done: seq<Node>, rest: seq<Node>, next: Option<Node>)
    requires rest != []
    requires next.Some? ==> |next.value.path| == |rest[0].path| + 1
    ensures var ls := Lookups(done + rest);
      var i := |done|;
      if next.None? then ls[..i] + ls[i + 1..] == Lookups(done + rest[1..])
      else ls[i := Lookup(next.value, ls[i].depth + 1)] == Lookups(done + [next.value] + rest[1..])
  {
  }

  lemma AdvanceHead(book: Book, done: seq<Node>, rest: seq<Node>, c: byte)
    requires rest != []
    ensures var next := Child(book, rest[0], c);
      var ns := if next.Some? then [next.value] else [];
      && done + Advance(book, rest, c) == done + ns + Advance(book, rest[1..], c)
      && (FirstRule(book, done).None? ==>
           && (FirstRule(book, ns).None? ==> FirstRule(book, done + ns).None?)
           && (FirstRule(book, ns).Some? ==> FirstRule(book, done + Advance(book, rest, c)) == next))
  {
    hide Child, RuleAt, Advance;
    var next := Child(book, rest[0], c);
    var ns := if next.Some? then [next.value] else [];
    AdvanceCons(book, rest, c);
    FirstRuleAppend(book, done, ns);
    FirstRuleAppend(book, done + ns, Advance(book, rest[1..], c));
  }

  lemma HitDecides(book: Book, pending: Text, c: byte)
    requires book.WellFormed()
    ensures var hit := FirstRule(book, Advance(book, Suffixes(book, pending), c));
      if hit.Some? then
        Decides(book, pending, c, TransformOk(RuleAt(book, hit.value).value, |hit.value.path|), [])
      else
        var ns := Advance(book, Suffixes(book, pending), c) + Here(book, [c]);
        && Suffixes(book, pending + [c]) == ns
        && Decides(book, pending, c, if ns == [] then NotHold else FeedMeAndHold, pending + [c])
  {
    hide Suffixes, FirstRule, Advance, KeyEndsAt, KeyStart;
    FirstRuleIsKey(book, pending, c);
    SuffixesStep(book, pending, c);
  }

  lemma AdvanceDeepens(book: Book, p: Text, c: byte)
    requires book.WellFormed()
    ensures forall n :: n in Advance(book, Suffixes(book, p), c) ==> 2 <= |n.path|
  {
    SuffixesExact(book, p);
    AdvanceDeepensAll(book, Suffixes(book, p), c);
  }

  lemma {:induction false} AdvanceDeepensAll(book: Book, ns: seq<Node>, c: byte)
    requires forall n :: n in ns ==> 1 <= |n.path|
    ensures forall n :: n in Advance(book, ns, c) ==> 2 <= |n.path|
  {
    if ns != [] {
      AdvanceDeepensAll(book, ns[1..], c);
    }
  }
}
