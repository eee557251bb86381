/** rena's matcher object with its linked list of partial matches
(`rena/src/database.c`) and the byte loop that feeds it (`rena/src/http.c`). */
module RenaLookup {
  import opened Bytes
  import opened Sequences
  import opened Wrappers
  import opened Rules
  import opened PartialMatches
  import opened RenaMatching

  const BLOCK: nat := 16

  class Pair {
    var actual: Node
    var next: Pair?
    var depth: nat

    constructor (t: Node, next: Pair?)
      ensures actual == t && this.next == next && depth == 1
    {
      actual, this.next, depth := t, next, 1;
    }
  }

  /** The pair at place `i`, or null past the end. */
  ghost function At(ps: seq<Pair>, i: nat): Pair? {
    if i < |ps| then ps[i] else null
  }

  /** `head` starts a null-ended chain through exactly these pairs. */
  ghost predicate Chain(head: Pair?, ps: seq<Pair>, nodes: set<Pair>)
    requires forall i :: 0 <= i < |ps| ==> ps[i] in nodes
    reads nodes`next
  {
    && head == At(ps, 0)
    && (forall i :: 0 <= i < |ps| ==> ps[i].next == At(ps, i + 1))
  }

  ghost predicate Holds(ps: seq<Pair>, ns: seq<Node>, nodes: set<Pair>)
    requires |ps| == |ns|
    requires forall i :: 0 <= i < |ps| ==> ps[i] in nodes
    reads nodes`actual, nodes`depth
  {
    forall i :: 0 <= i < |ps| ==> ps[i].actual == ns[i] && ps[i].depth == |ns[i].path|
  }

  class DatabaseObject {
    const book: Book  // first trie: the side's renames, second trie: never-proxy
    var list: Pair?
    var transformation: Text
    var transformationConsume: nat
    var input: array<byte>
    var inputSz: nat
    ghost var pairs: seq<Pair>  // the pairs in list order
    ghost var nodes: set<Pair>  // every pair that is or was in the list
    ghost var accepted: Text  // the bytes the context has let through

    ghost predicate Linked(ns: seq<Node>)
      reads `list, `pairs, `nodes, nodes
    {
      && (forall i :: 0 <= i < |pairs| ==> pairs[i] in nodes)
      && (forall i, j :: 0 <= i < j < |pairs| ==> pairs[i] != pairs[j])
      && |pairs| == |ns|
      && Chain(list, pairs, nodes) && Holds(pairs, ns, nodes)
    }

    ghost predicate Valid()
      reads this, nodes, input
    {
      && book.WellFormed() && book.floor == -129
      && Linked(SuffixesUp(book, accepted))
      && inputSz <= input.Length
    }

    /** The pending match: none while nothing is to be consumed. */
    ghost function Pending(): Option<Hit>
      reads this
    {
      if transformationConsume == 0 then None else Some(Hit(transformation, transformationConsume))
    }

    ghost function Input(): Text
      requires inputSz <= input.Length
      reads this, input
    {
      input[..inputSz]
    }

    constructor (side: Dict, never: Dict)
      requires side.WellFormed() && never.WellFormed()
      ensures Valid() && fresh(input) && pairs == [] && nodes == {} && book == Book(side, never, -129)
      ensures accepted == [] && Pending() == None && Input() == []
    {
      book := Book(side, never, -129);
      list, transformation, transformationConsume := null, [], 0;
      input, inputSz := new byte[0], 0;
      pairs, nodes, accepted := [], {}, [];
    }

    method AddInput(c: byte)
      requires Valid()
      modifies this`input, this`inputSz, input
      ensures Valid() && (input == old(input) || fresh(input))
      ensures Input() == old(Input()) + [c]
    {
      hide Linked;
      ghost var was := Input();
      if 1 + inputSz >= input.Length {
        Grow();
      }
      input[inputSz] := c;
      inputSz := inputSz + 1;
      assert Input() == was + [c];
    }

    method Grow()
      requires Valid()
      modifies this`input
      ensures Valid() && fresh(input) && input.Length == old(input.Length) + BLOCK
      ensures Input() == old(Input())
    {
      hide Linked;
      var moved := new byte[input.Length + BLOCK](_ => 0);
      forall i | 0 <= i < inputSz {
        moved[i] := input[i];
      }
      input := moved;
    }

    /** Cuts `x` bytes off the end; more than are there is the abort. */
    method ConsumeInput(x: nat) returns (aborts: bool)
      requires Valid()
      modifies this`inputSz
      ensures Valid() && (aborts <==> |old(Input())| < x)
      ensures Input() == if aborts then old(Input()) else old(Input())[..|old(Input())| - x]
    {
      hide Linked;
      if x >= inputSz {
        if x > inputSz {
          return true;
        }
        inputSz := 0;
      } else {
        inputSz := inputSz - x;
      }
      return false;
    }

    method GetHolding(force: bool) returns (o: Text)
      requires Valid()
      modifies this`inputSz
      ensures Valid()
      ensures o == (if pairs == [] || force then old(Input()) else [])
      ensures Input() == (if pairs == [] || force then [] else old(Input()))
    {
      if list == null || force {
        o := input[..inputSz];
        inputSz := 0;
      } else {
        o := [];
      }
    }

    /** `dbo_list_foreach`: every pair reads the byte or is unlinked. */
    method ListForeach(c: byte, ghost ns: seq<Node>)
      requires Linked(ns)
      modifies this`list, this`pairs, this`transformation, this`transformationConsume, nodes
      ensures Linked(Advance(book, ns, c))
      ensures Pending() == Best(book, old(Pending()), Advance(book, ns, c))
    {
      hide Best, Advance, Child, RuleAt, Linked;
      ghost var was, k := Pending(), 0;
      LinkedStart(ns);
      ghost var kept: seq<Node>, rest := [], ns;
      assert kept + rest == ns;
      var lookup, prev: Pair? := list, null;
      while lookup != null
        invariant Linked(kept + rest) && k == |kept| <= |pairs|
        invariant lookup == At(pairs, k)
        invariant prev == if k == 0 then null else pairs[k - 1]
        invariant Advance(book, ns, c) == kept + Advance(book, rest, c)
        invariant Best(book, was, Advance(book, ns, c)) == Best(book, Pending(), Advance(book, rest, c))
        decreases |rest|
      {
        LinkedAt(kept + rest, k);
        assert (kept + rest)[k] == rest[0];
        ReadHead(book, kept, rest, c, Pending());
        Splice(kept, rest);
        var aux := Child(book, lookup.actual, c);
        if aux.None? {
          if 0 < k {
            LinkedAt(kept + rest, k - 1);
          }
          lookup := Unlink(prev, lookup, k, kept + rest);
          rest := rest[1..];
        } else {
          Descend(lookup, aux.value, k, kept + rest);
          kept, rest := kept + [aux.value], rest[1..];
          LinkedAt(kept + rest, k);
          k := k + 1;
          prev := lookup;
          lookup := lookup.next;
        }
      }
      LinkedEnd(kept, rest);
      assert kept + rest == kept;
      AdvanceNothing(book, c, Pending());
    }

    lemma LinkedStart(ns: seq<Node>)
      requires Linked(ns)
      ensures list == At(pairs, 0)
    {
    }

    lemma LinkedAt(ns: seq<Node>, k: nat)
      requires Linked(ns) && k < |pairs|
      ensures k < |ns| && pairs[k].actual == ns[k] && pairs[k].depth == |ns[k].path|
      ensures pairs[k].next == At(pairs, k + 1) && pairs[k] in nodes
    {
    }

    lemma LinkedEnd(kept: seq<Node>, rest: seq<Node>)
      requires Linked(kept + rest) && At(pairs, |kept|) == null
      ensures rest == []
    {
    }

    /** The pair moves to `next`; a key there becomes pending when it is the longest. */
    method Descend(lookup: Pair, next: Node, ghost k: nat, ghost ns: seq<Node>)
      requires Linked(ns)
      requires k < |pairs| && lookup == pairs[k] && |next.path| == |ns[k].path| + 1
      modifies this`transformation, this`transformationConsume, lookup`actual, lookup`depth
      ensures Linked(ns[k := next])
      ensures Pending() ==
        var rule := RuleAt(book, next);
        if rule.Some? && (old(Pending()).None? || old(Pending()).value.consume < |next.path|)
        then Some(Hit(rule.value, |next.path|)) else old(Pending())
    {
      hide Chain, RuleAt;
      lookup.depth := lookup.depth + 1;
      var rule := RuleAt(book, next);
      if rule.Some? {
        if transformationConsume == 0 || transformationConsume < lookup.depth {
          transformationConsume := lookup.depth;
          transformation := rule.value;
        }
      }
      lookup.actual := next;
    }

    /** `dbo_list_remove`. */
    method Unlink(prev: Pair?, current: Pair, ghost k: nat, ghost ns: seq<Node>) returns (next: Pair?)
      requires Linked(ns) && k < |pairs| && current == pairs[k]
      requires prev == if k == 0 then null else pairs[k - 1]
      modifies this`list, this`pairs, (if prev == null then {} else {prev})`next
      ensures Linked(Without(ns, k)) && pairs == Without(old(pairs), k)
      ensures next == At(pairs, k)
    {
      hide Without, Holds, At;
      HoldsWithout(pairs, ns, nodes, k);
      next := current.next;
      if prev != null {
        prev.next := next;
      } else {
        list := next;
      }
      ChainWithout(list, pairs, nodes, k);
      pairs := Without(pairs, k);
    }

    /** `dbo_list_prepend`. */
    method ListPrepend(t: Option<Node>, ghost ns: seq<Node>)
      requires Linked(ns) && (t.Some? ==> |t.value.path| == 1)
      modifies this`list, this`pairs, this`nodes
      ensures Linked((if t.Some? then [t.value] else []) + ns)
      ensures fresh(nodes - old(nodes))
    {
      if t.None? {
        assert [] + ns == ns;
        return;
      }
      var dbop := new Pair(t.value, list);
      list := dbop;
      pairs, nodes := [dbop] + pairs, nodes + {dbop};
    }

    /** `database_instance_lookup`: one byte, with the context's verdict on it; None is the
    abort. */
    method Lookup(c: byte, permitted: bool) returns (o: Option<Output>)
      requires Valid()
      modifies this`list, this`pairs, this`nodes, this`accepted, nodes
      modifies this`transformation, this`transformationConsume, this`inputSz
      ensures Valid() && fresh(nodes - old(nodes))
      ensures var d := Decide(book, old(accepted), old(Pending()), c, permitted);
        && accepted == d.accepted
        && (o.None? <==> |old(Input())| < d.cut)
        && (o.Some? ==> Pending() == d.hit && o.value == d.answer && Input() == old(Input())[..|old(Input())| - d.cut])
    {
      hide Best, Advance, SuffixesUp, Linked, Here;
      if permitted {
        var empty := ReadByte(c);
        if empty && transformationConsume > 0 {
          AdvanceNothing(book, c, old(Pending()));
          var phrase := transformation;
          var aborts := ConsumeInput(transformationConsume);
          if aborts {
            return None;
          }
          transformationConsume := 0;
          transformation := [];
          return Some(TransformationFound(phrase));
        }
      }
      LinkedEmpty(SuffixesUp(book, accepted));
      o := Some(if list == null then NotHold else FeedMe);
    }

    /** Advances the list by an accepted byte, and opens new partial matches; `empty` when no
    older one is left. */
    method ReadByte(c: byte) returns (empty: bool)
      requires Valid()
      modifies this`list, this`pairs, this`nodes, this`accepted, nodes, this`transformation, this`transformationConsume
      ensures Valid() && fresh(nodes - old(nodes)) && accepted == old(accepted) + [c]
      ensures var ns := Advance(book, SuffixesUp(book, old(accepted)), c);
        (empty <==> ns == []) && Pending() == Best(book, old(Pending()), ns)
    {
      hide Best, Advance, SuffixesUp, Linked, Here;
      ghost var ns := Advance(book, SuffixesUp(book, accepted), c);
      SuffixesUpStep(book, accepted, c);
      ListForeach(c, SuffixesUp(book, accepted));
      empty := list == null;
      LinkedEmpty(ns);
      StartAll(c, ns);
      accepted := accepted + [c];
    }

    lemma LinkedEmpty(ns: seq<Node>)
      requires Linked(ns)
      ensures list == null <==> ns == []
    {
    }

    /** New partial matches: never-proxy first, so that the side's rule ends up ahead. */
    method StartAll(c: byte, ghost ns: seq<Node>)
      requires Linked(ns) && book.floor == -129
      modifies this`list, this`pairs, this`nodes
      ensures Linked(Here(book, [c]) + ns) && fresh(nodes - old(nodes))
    {
      hide DatabaseObject.Linked, LowerText;
      var start := [Lower(c)];
      OneLower(c);
      var side := if start in book.first.paths then Some(Node(false, start)) else None;
      var never := if start in book.second.paths then Some(Node(true, start)) else None;
      ListPrepend(never, ns);
      ListPrepend(side, (if never.Some? then [never.value] else []) + ns);
      assert Here(book, [c]) + ns ==
        (if side.Some? then [side.value] else []) + ((if never.Some? then [never.value] else []) + ns);
    }
  }

  /** The pair before the `k`th, or the head, leads past it. */
  lemma ChainWithout(head: Pair?, ps: seq<Pair>, nodes: set<Pair>, k: nat)
    requires k < |ps|
    requires forall i :: 0 <= i < |ps| ==> ps[i] in nodes
    requires forall i, j :: 0 <= i < j < |ps| ==> ps[i] != ps[j]
    requires head == At(ps, if k == 0 then 1 else 0)
    requires forall i :: 0 <= i < |ps| ==> ps[i].next == At(ps, if i + 1 == k then k + 1 else i + 1)
    ensures forall i, j :: 0 <= i < j < |ps| - 1 ==> Without(ps, k)[i] != Without(ps, k)[j]
    ensures Chain(head, Without(ps, k), nodes) && ps[k].next == At(Without(ps, k), k)
  {
  }

  lemma OneLower(c: byte)
    ensures LowerText([c]) == [Lower(c)]
  {
  }

  lemma HoldsWithout(ps: seq<Pair>, ns: seq<Node>, nodes: set<Pair>, k: nat)
    requires k < |ps| == |ns|
    requires forall i :: 0 <= i < |ps| ==> ps[i] in nodes
    requires Holds(ps, ns, nodes)
    ensures Holds(Without(ps, k), Without(ns, k), nodes)
  {
  }

  lemma Splice(kept: seq<Node>, rest: seq<Node>)
    requires rest != []
    ensures Without(kept + rest, |kept|) == kept + rest[1..]
    ensures forall n :: (kept + rest)[|kept| := n] == kept + [n] + rest[1..]
  {
  }

  lemma AdvanceNothing(book: Book, c: byte, hit: Option<Hit>)
    ensures Advance(book, [], c) == [] && Best(book, hit, []) == hit
  {
  }

  /** The head of the list reads `c`: what is left of the advance, and the pending match. */
  lemma ReadHead(book: Book, kept: seq<Node>, rest: seq<Node>, c: byte, hit: Option<Hit>)
    requires rest != []
    ensures var next := Child(book, rest[0], c);
      var later := Advance(book, rest[1..], c);
      if next.None? then
        Advance(book, rest, c) == later
      else
        var rule := RuleAt(book, next.value);
        var better := rule.Some? && (hit.None? || hit.value.consume < |next.value.path|);
        && kept + Advance(book, rest, c) == kept + [next.value] + later
        && Best(book, hit, Advance(book, rest, c)) ==
           Best(book, if better then Some(Hit(rule.value, |next.value.path|)) else hit, later)
  {
    var next := Child(book, rest[0], c);
    if next.Some? {
      assert ([next.value] + Advance(book, rest[1..], c))[1..] == Advance(book, rest[1..], c);
    }
  }
}
