/** The dictionary that the paths of a trie stand for. */
module TrieView {
  import opened Bytes
  import opened Wrappers
  import opened Rules
  import opened TrieHeap

  /** `now` is `was` and a new node for every beginning of `k` that had none. */
  ghost predicate Extends<A>(was: map<Text, Node?<A>>, nodes: set<Node<A>>, now: map<Text, Node?<A>>, k: Text) {
    && now.Keys == was.Keys + Prefixes(k)
    && (forall p :: p in was ==> now[p] == was[p])
    && (forall p :: p in now && p !in was ==> now[p] != null && now[p] !in nodes)
  }

  lemma ExtendsNone<A>(was: map<Text, Node?<A>>, nodes: set<Node<A>>)
    ensures Extends(was, nodes, was, [])
  {
  }

  /** Every path is a node; a node with a text is a key. */
  ghost function ViewOf<A>(at: map<Text, Node?<A>>, texts: map<Node<A>, Option<Text>>): Dict {
    Dict(at.Keys - {[]}, map p | p in at.Keys - {[]} && TextAt(at[p], texts).Some? :: TextAt(at[p], texts).value)
  }

  ghost function TextAt<A>(n: Node?<A>, texts: map<Node<A>, Option<Text>>): Option<Text> {
    if n != null && n in texts then texts[n] else None
  }

  /** The node that following `p` finds. */
  ghost function Lookup<A>(at: map<Text, Node?<A>>, p: Text): Node?<A> {
    if p in at then at[p] else null
  }

  lemma RuleOfPath<A>(at: map<Text, Node?<A>>, texts: map<Node<A>, Option<Text>>, p: Text)
    ensures var d := ViewOf(at, texts);
      && d.paths == at.Keys - {[]}
      && (p in d.rule <==> p in at && p != [] && TextAt(at[p], texts).Some?)
      && (p in d.rule ==> Some(d.rule[p]) == TextAt(at[p], texts))
  {
  }

  /** New nodes hold no replacement yet. */
  lemma ViewOpened<A>(was: map<Text, Node?<A>>, texts: map<Node<A>, Option<Text>>,
                      now: map<Text, Node?<A>>, texts1: map<Node<A>, Option<Text>>, k: Text)
    requires Extends(was, texts.Keys, now, k) && k != []
    requires forall n :: n in texts1 && n !in texts ==> texts1[n] == None
    requires forall n :: n in texts ==> n in texts1 && texts1[n] == texts[n]
    requires forall p :: p in was && p != [] ==> was[p] in texts
    ensures ViewOf(now, texts1) == Dict(ViewOf(was, texts).paths + Prefixes(k), ViewOf(was, texts).rule)
  {
    hide ViewOf;
    var d, e := ViewOf(was, texts), ViewOf(now, texts1);
    assert [] !in Prefixes(k);
    RuleOfPath(was, texts, k);
    RuleOfPath(now, texts1, k);
    forall p
      ensures p in e.rule <==> p in d.rule
      ensures p in e.rule ==> e.rule[p] == d.rule[p]
    {
      RuleOfPath(was, texts, p);
      RuleOfPath(now, texts1, p);
    }
    assert e.rule == d.rule;
  }

  /** Storing a text changes the rule of one path. */
  lemma ViewSet<A>(at: map<Text, Node?<A>>, texts: map<Node<A>, Option<Text>>, aux: Node<A>,
    k: Text, text: Option<Text>)
    requires k != [] && k in at && at[k] == aux
    requires forall p, q :: p in at && q in at && at[p] == at[q] ==> p == q
    ensures var d := ViewOf(at, texts);
      ViewOf(at, texts[aux := text]) == Dict(d.paths, if text.None? then d.rule - {k} else d.rule[k := text.value])
  {
    hide ViewOf;
    var d, e := ViewOf(at, texts), ViewOf(at, texts[aux := text]);
    var rule := if text.None? then d.rule - {k} else d.rule[k := text.value];
    forall p
      ensures p in e.rule <==> p in rule
      ensures p in e.rule ==> e.rule[p] == rule[p]
    {
      RuleOfPath(at, texts, p);
      RuleOfPath(at, texts[aux := text], p);
    }
    assert e.rule == rule;
    RuleOfPath(at, texts, k);
    RuleOfPath(at, texts[aux := text], k);
  }
}
