/** What a sequence of insertions leaves in one of rena's tries. */
module RenaRules {
  import opened Bytes
  import opened Wrappers
  import opened Rules
  import opened TrieHeap
  import opened RenaTrie

  datatype Insertion = Insertion(key: Text, adapted: Option<Text>)

  const EMPTY := Content(Dict({}, map[]), None)

  /** The content after the insertions, from an empty trie. */
  function After(rs: seq<Insertion>): Content {
    if rs == [] then EMPTY
    else Inserted(After(rs[..|rs| - 1]), rs[|rs| - 1].key, rs[|rs| - 1].adapted)
  }

  method Build(rs: seq<Insertion>) returns (t: Trie<Option<Text>>)
    ensures fresh(t) && fresh(t.nodes) && t.Valid() && ContentOf(t) == After(rs)
  {
    hide Trie.Valid, Inserted;
    t := new Trie<Option<Text>>();
    assert View(t).rule == map[] && RootOf(t) == None;
    var i := 0;
    while i < |rs|
      invariant i <= |rs| && t.Valid() && fresh(t) && fresh(t.nodes)
      invariant ContentOf(t) == After(rs[..i])
    {
      assert rs[..i + 1][..i] == rs[..i];
      TreeInsert(t, rs[i].key, rs[i].adapted);
      i := i + 1;
    }
    assert rs[..i] == rs;
  }

  /** The form of every content: closed under beginnings, and in lower case. */
  ghost predicate Proper(d: Dict) {
    d.WellFormed() && [] !in d.paths && forall p :: p in d.paths ==> IsLowerText(p)
  }

  lemma {:induction false} BeginningsThere(d: Dict, p: Text, n: nat)
    requires Proper(d) && p in d.paths && 0 < n <= |p|
    ensures p[..n] in d.paths
    decreases |p|
  {
    if n < |p| {
      BeginningsThere(d, p[..|p| - 1], n);
      assert p[..|p| - 1][..n] == p[..n];
    } else {
      assert p[..n] == p;
    }
  }

  lemma AboveIsProper(d: Dict, v: byte)
    requires Proper(d)
    ensures Proper(DictAbove(d, v))
  {
  }

  lemma OpenedIsProper(d: Dict, k: Text, rule: map<Text, Text>)
    requires Proper(d) && IsLowerText(k)
    requires forall p :: p in rule ==> p in d.paths || (p == k && k != [])
    ensures Proper(Dict(d.paths + Prefixes(k), rule))
  {
    var paths := d.paths + Prefixes(k);
    forall p | p in paths
      ensures p != [] && IsLowerText(p) && (1 < |p| ==> p[..|p| - 1] in paths)
    {
      InPrefixes(k, p);
      InPrefixes(k, p[..if p == [] then 0 else |p| - 1]);
    }
    InPrefixes(k, k);
  }

  lemma InsertedIsProper(c: Content, v: Text, adapted: Option<Text>)
    requires Proper(c.d)
    ensures Proper(Inserted(c, v, adapted).d)
  {
    hide Prefixes, Proper, GoodLen, KeyOf, DictAbove;
    var raw, k := RawKey(v), KeyOf(v);
    AboveIsProper(c.d, Lower(raw[0]));
    var d := if MovesRoot(c, v) then DictAbove(c.d, Lower(raw[0])) else c.d;
    var g := GoodLen(d.paths, raw);
    KeySize(v);
    assert g == |raw| ==> k[..g] == k;
    RulesInPaths(d);
    OpenedIsProper(d, k[..g], Inserted(c, v, adapted).d.rule);
  }

  lemma KeySize(v: Text)
    ensures |KeyOf(v)| == |RawKey(v)|
  {
  }

  lemma RulesInPaths(d: Dict)
    requires Proper(d)
    ensures forall k :: k in d.rule ==> k in d.paths
  {
  }

  /** The dictionaries have the form that the matchers rely on, whatever was inserted. */
  lemma {:induction false} RulesAreWellFormed(rs: seq<Insertion>)
    ensures Proper(After(rs).d)
  {
    if rs != [] {
      RulesAreWellFormed(rs[..|rs| - 1]);
      InsertedIsProper(After(rs[..|rs| - 1]), rs[|rs| - 1].key, rs[|rs| - 1].adapted);
    }
  }

  lemma KeyIsLowered(v: Text)
    ensures KeyOf(v) == if v == [] then [0] else LowerText(v)
  {
  }

  /** A good key: no upper-case letter without a node for the way up to it. */
  lemma GoodIff(d: Dict, v: Text)
    requires v != []
    ensures Good(d, v) <==> forall s :: 0 <= s < |v| ==> 'A' as int <= v[s] as int <= 'Z' as int ==>
      LowerText(v)[..s + 1] in d.paths
  {
    hide GoodLen;
    forall s | 0 <= s < |v|
      ensures GoodAt(d.paths, v, s) <==>
        ('A' as int <= v[s] as int <= 'Z' as int ==> LowerText(v)[..s + 1] in d.paths)
    {
    }
  }

  /** When the root moves: a new upper-case first byte below the root's value. */
  lemma MovesRootIff(c: Content, v: Text)
    requires v != []
    ensures MovesRoot(c, v) <==>
      && 'A' as int <= v[0] as int <= 'Z' as int && [Lower(v[0])] !in c.d.paths
      && c.root.Some? && v[0] < c.root.value
  {
  }

  /** A key whose path is there has no byte that is lost. */
  lemma ThereIsGood(d: Dict, v: Text)
    requires Proper(d) && KeyOf(v) in d.paths
    ensures Good(d, v)
  {
    hide GoodLen;
    var raw, k := RawKey(v), KeyOf(v);
    forall s | 0 <= s < |raw|
      ensures GoodAt(d.paths, raw, s)
    {
      BeginningsThere(d, k, s + 1);
    }
  }

  /** A good key does not move the root. */
  lemma GoodStays(c: Content, v: Text)
    requires Good(c.d, v)
    ensures !MovesRoot(c, v)
  {
    hide GoodLen;
    var raw := RawKey(v);
    assert GoodAt(c.d.paths, raw, 0);
    assert LowerText(raw)[..1] == [Lower(raw[0])];
  }

  /** The key is found afterwards exactly when each of its upper-case letters meets a node
  that is there already; otherwise not even its path is there. */
  lemma FoundIffGood(c: Content, v: Text, adapted: Option<Text>)
    requires Proper(c.d)
    ensures KeyOf(v) in Inserted(c, v, adapted).d.rule <==> Good(c.d, v)
    ensures KeyOf(v) in Inserted(c, v, adapted).d.paths <==> Good(c.d, v)
  {
    hide Prefixes, GoodLen, DictAbove, Proper;
    var raw, k := RawKey(v), KeyOf(v);
    KeySize(v);
    AboveIsProper(c.d, Lower(raw[0]));
    var d := if MovesRoot(c, v) then DictAbove(c.d, Lower(raw[0])) else c.d;
    var g := GoodLen(d.paths, raw);
    InPrefixes(k[..g], k);
    RulesInPaths(d);
    if Good(c.d, v) {
      GoodStays(c, v);
      assert k[..g] == k;
    } else {
      BadAbove(c, v);
      if k in d.paths {
        ThereIsGood(d, v);
      }
    }
  }

  lemma BadAbove(c: Content, v: Text)
    requires !Good(c.d, v)
    ensures MovesRoot(c, v) ==> GoodLen(DictAbove(c.d, Lower(RawKey(v)[0])).paths, RawKey(v)) == 0
  {
    hide GoodLen;
    var raw := RawKey(v);
    assert LowerText(raw)[..1] == [Lower(raw[0])];
    if MovesRoot(c, v) {
      var d := DictAbove(c.d, Lower(raw[0]));
      assert !GoodAt(d.paths, raw, 0);
    }
  }

  /** A key that begins with an upper-case letter no earlier key begins with is lost. */
  lemma FreshCapitalIsLost(c: Content, v: Text, adapted: Option<Text>)
    requires Proper(c.d) && v != [] && !IsLower(v[0]) && [Lower(v[0])] !in c.d.paths
    ensures KeyOf(v) !in Inserted(c, v, adapted).d.paths
  {
    hide GoodLen;
    FoundIffGood(c, v, adapted);
    assert LowerText(v)[..1] == [Lower(v[0])];
    assert Good(c.d, v) ==> GoodAt(c.d.paths, v, 0);
  }

  /** The insertion of `v` loses the rule at `k`. */
  predicate Loses(c: Content, v: Text, k: Text)
    requires k != []
  {
    MovesRoot(c, v) && k[0] < Lower(RawKey(v)[0])
  }

  /** No other byte begins a rule when the root moves. */
  lemma NotTheSame(c: Content, v: Text, k: Text)
    requires Proper(c.d) && k in c.d.rule && MovesRoot(c, v)
    ensures k != [] && k[0] != Lower(RawKey(v)[0])
  {
    BeginningsThere(c.d, k, 1);
    assert k[..1] == [k[0]];
  }

  /** Apart from the inserted key an insertion only loses rules, and exactly those that begin
  below it when the root moves. */
  lemma RuleStaysIff(c: Content, v: Text, adapted: Option<Text>, k: Text)
    requires Proper(c.d) && k != []
    ensures var e := Inserted(c, v, adapted).d;
      && (k in c.d.rule ==> (k in e.rule <==> !Loses(c, v, k)))
      && (k in c.d.rule && k in e.rule ==> e.rule[k] == c.d.rule[k])
      && (k !in c.d.rule ==> (k in e.rule <==> k == KeyOf(v) && Good(c.d, v)))
      && (k !in c.d.rule && k in e.rule ==> e.rule[k] == adapted.GetOr([]))
  {
    hide Prefixes, GoodLen, Proper, KeyOf, Moves, RootAfter;
    FoundIffGood(c, v, adapted);
    KeySize(v);
    if Good(c.d, v) {
      GoodStays(c, v);
    }
    if k in c.d.rule && MovesRoot(c, v) {
      NotTheSame(c, v, k);
      KeyLost(c, v, k);
    }
  }

  /** When the root moves, no rule is at the inserted key. */
  lemma KeyLost(c: Content, v: Text, k: Text)
    requires Proper(c.d) && k in c.d.rule && MovesRoot(c, v)
    ensures k != KeyOf(v)
  {
    NotTheSame(c, v, k);
  }

  /** Every rule survives an insertion exactly when the root does not move past one. */
  lemma AllRulesStayIff(c: Content, v: Text, adapted: Option<Text>)
    requires Proper(c.d)
    ensures (forall k :: k in c.d.rule ==> k in Inserted(c, v, adapted).d.rule) <==>
      !MovesRoot(c, v) || forall k :: k in c.d.rule ==> Lower(RawKey(v)[0]) < k[0]
  {
    hide Inserted, MovesRoot, Proper;
    forall k | k in c.d.rule
      ensures k != [] && (k in Inserted(c, v, adapted).d.rule <==> !Loses(c, v, k))
      ensures MovesRoot(c, v) ==> k[0] != Lower(RawKey(v)[0])
    {
      RuleNonEmpty(c.d, k);
      RuleStaysIff(c, v, adapted, k);
      if MovesRoot(c, v) {
        NotTheSame(c, v, k);
      }
    }
  }

  lemma RuleNonEmpty(d: Dict, k: Text)
    requires Proper(d) && k in d.rule
    ensures k != []
  {
  }

  /** The `i`th insertion has put a rule at `k`, and no later one has lost it. */
  predicate Stays(rs: seq<Insertion>, k: Text, i: nat)
    requires k != [] && i < |rs|
  {
    && KeyOf(rs[i].key) == k && Good(After(rs[..i]).d, rs[i].key)
    && (forall j :: i < j < |rs| ==> !Loses(After(rs[..j]), rs[j].key, k))
  }

  predicate StaysFirst(rs: seq<Insertion>, k: Text, i: nat)
    requires k != [] && i < |rs|
  {
    Stays(rs, k, i) && forall j :: 0 <= j < i ==> !Stays(rs, k, j)
  }

  lemma StaysStep(rs: seq<Insertion>, k: Text, i: nat)
    requires k != [] && i < |rs|
    ensures var n := |rs| - 1;
      Stays(rs, k, i) <==>
        if i == n then KeyOf(rs[n].key) == k && Good(After(rs[..n]).d, rs[n].key)
        else Stays(rs[..n], k, i) && !Loses(After(rs[..n]), rs[n].key, k)
  {
    hide After, Good, Loses, KeyOf;
    var n := |rs| - 1;
    assert forall j :: 0 <= j < n ==> rs[..n][..j] == rs[..j] && rs[..n][j] == rs[j];
  }

  /** After any insertions whatever: a rule is there exactly when some insertion that was
  found has not been lost since, and it is that of the first such insertion. */
  lemma {:induction false} RuleIff(rs: seq<Insertion>, k: Text)
    requires k != []
    ensures k in After(rs).d.rule <==> exists i :: 0 <= i < |rs| && Stays(rs, k, i)
    ensures k in After(rs).d.rule ==>
      exists i :: 0 <= i < |rs| && StaysFirst(rs, k, i) && After(rs).d.rule[k] == rs[i].adapted.GetOr([])
  {
    hide Stays, Good, Loses, Inserted, KeyOf;
    if rs != [] {
      var n := |rs| - 1;
      var before := rs[..n];
      RuleIff(before, k);
      RulesAreWellFormed(before);
      RuleStaysIff(After(before), rs[n].key, rs[n].adapted, k);
      forall i | 0 <= i < |rs|
        ensures Stays(rs, k, i) <==>
          if i == n then KeyOf(rs[n].key) == k && Good(After(before).d, rs[n].key)
          else Stays(before, k, i) && !Loses(After(before), rs[n].key, k)
      {
        StaysStep(rs, k, i);
      }
      assert forall i :: 0 <= i < n ==> before[i] == rs[i];
      if i :| 0 <= i < n && StaysFirst(before, k, i) && After(before).d.rule[k] == rs[i].adapted.GetOr([]) {
        assert Stays(rs, k, i) <==> !Loses(After(before), rs[n].key, k);
        assert StaysFirst(rs, k, i) <==> !Loses(After(before), rs[n].key, k);
      }
      assert Stays(rs, k, n) <==> KeyOf(rs[n].key) == k && Good(After(before).d, rs[n].key);
      LostIsBad(After(before), rs[n].key, k);
    }
  }

  /** An insertion that loses a rule is not found itself. */
  lemma LostIsBad(c: Content, v: Text, k: Text)
    requires k != []
    ensures Loses(c, v, k) ==> !Good(c.d, v)
  {
    if Good(c.d, v) {
      GoodStays(c, v);
    }
  }

  /** Every upper-case letter meets a node that is there when its key is inserted. */
  predicate GoodRun(rs: seq<Insertion>) {
    forall i :: 0 <= i < |rs| ==> Good(After(rs[..i]).d, rs[i].key)
  }

  /** The text that the first insertion of `k`, ignoring case, stored. */
  function FirstText(rs: seq<Insertion>, k: Text): Option<Text> {
    if rs == [] then None
    else
      var before := FirstText(rs[..|rs| - 1], k);
      var r := rs[|rs| - 1];
      if before.None? && KeyOf(r.key) == k then Some(r.adapted.GetOr([])) else before
  }

  lemma GoodBefore(rs: seq<Insertion>)
    requires GoodRun(rs) && rs != []
    ensures GoodRun(rs[..|rs| - 1]) && Good(After(rs[..|rs| - 1]).d, rs[|rs| - 1].key)
  {
    hide Good, After;
    var n := |rs| - 1;
    assert forall j :: 0 <= j < n ==> rs[..n][..j] == rs[..j] && rs[..n][j] == rs[j];
  }

  /** In a good run the first insertion of a key wins; a missing text counts as the empty one. */
  lemma {:induction false} FirstInsertionWins(rs: seq<Insertion>, k: Text)
    requires GoodRun(rs) && k != []
    ensures k in After(rs).d.rule <==> FirstText(rs, k).Some?
    ensures k in After(rs).d.rule ==> After(rs).d.rule[k] == FirstText(rs, k).value
    ensures FirstText(rs, k).Some? <==> exists r :: r in rs && KeyOf(r.key) == k
  {
    hide KeyOf, Good, Inserted, Loses, GoodRun;
    if rs != [] {
      var r, before := rs[|rs| - 1], rs[..|rs| - 1];
      GoodBefore(rs);
      FirstInsertionWins(before, k);
      RulesAreWellFormed(before);
      RuleStaysIff(After(before), r.key, r.adapted, k);
      LostIsBad(After(before), r.key, k);
      assert forall q :: q in rs <==> q in before || q == r;
    }
  }

  lemma LowerIsGood(d: Dict, v: Text)
    requires IsLowerText(v)
    ensures Good(d, v)
  {
    hide GoodLen;
    assert forall s :: 0 <= s < |RawKey(v)| ==> GoodAt(d.paths, RawKey(v), s);
  }

  /** Rules written in lower case are always found again. */
  lemma LowerCaseIsGood(rs: seq<Insertion>)
    requires forall r :: r in rs ==> IsLowerText(r.key)
    ensures GoodRun(rs)
  {
    hide Good, After;
    forall i | 0 <= i < |rs|
      ensures Good(After(rs[..i]).d, rs[i].key)
    {
      LowerIsGood(After(rs[..i]).d, rs[i].key);
    }
  }

  /** "ab", then "Cd": the second is not found, and the first is lost. */
  lemma CapitalLosesRule(ab: Option<Text>, cd: Option<Text>)
    ensures var one := [Insertion([97, 98], ab)];
      && [97, 98] in After(one).d.rule
      && After(one + [Insertion([67, 100], cd)]).d.rule == map[]
  {
    hide GoodLen, Prefixes;
    var first, second := Insertion([97, 98], ab), Insertion([67, 100], cd);
    var one := [first];
    assert one[..0] == [] && After(one) == Inserted(EMPTY, first.key, ab);
    LowerIsGood(EMPTY.d, first.key);
    assert KeyOf(first.key) == [97, 98];
    assert After(one).d.rule.Keys == {[97, 98]};
    assert (one + [second])[..1] == one;
    var c := After(one);
    assert c.root == Some(97);
    RulesAreWellFormed(one);
    InPrefixes([97, 98], [99]);
    assert first.key[..2] == first.key;
    assert [99] !in c.d.paths;
    assert MovesRoot(c, second.key);
    FreshCapitalIsLost(c, second.key, cd);
    FoundIffGood(c, second.key, cd);
    BadAbove(c, second.key);
    assert DictAbove(c.d, 99).rule == map[];
  }
}
