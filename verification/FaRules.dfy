/** What any sequence of insertions leaves in one of faproxy's tries. */
module FaRules {
  import opened Bytes
  import opened Wrappers
  import opened Rules
  import opened TrieHeap
  import opened FaTrie

  datatype Insertion = Insertion(key: Text, adapted: Option<Text>, suffix: Text)

  /** The dictionary after the insertions, from an empty trie. */
  function After(rs: seq<Insertion>): Dict {
    if rs == [] then Dict({}, map[])
    else
      var r := rs[|rs| - 1];
      Inserted(After(rs[..|rs| - 1]), r.key, r.adapted, r.suffix)
  }

  /** The text that the last insertion of `k`, ignoring case, stored. */
  function LastText(rs: seq<Insertion>, k: Text): Text {
    if rs == [] then []
    else
      var r := rs[|rs| - 1];
      if KeyOf(r.key) == k && r.adapted.Some? then Stored(r.adapted.value + r.suffix)
      else LastText(rs[..|rs| - 1], k)
  }

  method Build(rs: seq<Insertion>) returns (t: Trie<Text>)
    ensures fresh(t) && fresh(t.nodes) && t.Valid() && View(t) == After(rs)
  {
    hide Trie.Valid, Inserted;
    t := new Trie<Text>();
    assert View(t).rule == map[];
    var i := 0;
    while i < |rs|
      invariant i <= |rs| && t.Valid() && fresh(t) && fresh(t.nodes)
      invariant View(t) == After(rs[..i])
    {
      assert rs[..i + 1][..i] == rs[..i];
      TreeInsert(t, rs[i].key, rs[i].adapted, rs[i].suffix);
      i := i + 1;
    }
    assert rs[..i] == rs;
  }

  /** The last non-null insertion of a key wins, whatever the case it was written in;
  every key's way from the root is there, and nothing else is. */
  lemma {:induction false} LastInsertionWins(rs: seq<Insertion>, k: Text)
    ensures k in After(rs).rule <==> LastText(rs, k) != []
    ensures k in After(rs).rule ==> After(rs).rule[k] == LastText(rs, k)
    ensures k in After(rs).paths <==> k != [] && exists r :: r in rs && k <= KeyOf(r.key)
  {
    hide KeyOf, Stored, Prefixes;
    if rs != [] {
      var r, before := rs[|rs| - 1], rs[..|rs| - 1];
      LastInsertionWins(before, k);
      InPrefixes(KeyOf(r.key), k);
      assert forall q :: q in rs <==> q in before || q == r;
    }
  }

  /** The dictionary has the form that the matchers rely on. */
  lemma RulesAreWellFormed(rs: seq<Insertion>)
    ensures After(rs).WellFormed()
    ensures forall p :: p in After(rs).paths ==> IsLowerText(p)
  {
    forall p | p in After(rs).paths
      ensures IsLowerText(p) && (1 < |p| ==> p[..|p| - 1] in After(rs).paths)
    {
      LastInsertionWins(rs, p);
      LastInsertionWins(rs, p[..|p| - 1]);
    }
    forall p | p in After(rs).rule
      ensures p in After(rs).paths
    {
      LastInsertionWins(rs, p);
      StoredKeyInserted(rs, p);
    }
  }

  lemma {:induction false} StoredKeyInserted(rs: seq<Insertion>, k: Text)
    requires LastText(rs, k) != []
    ensures k != [] && exists r :: r in rs && k <= KeyOf(r.key)
  {
    var r, before := rs[|rs| - 1], rs[..|rs| - 1];
    if !(KeyOf(r.key) == k && r.adapted.Some?) {
      StoredKeyInserted(before, k);
      var q :| q in before && k <= KeyOf(q.key);
      assert q in rs;
    }
  }
}
