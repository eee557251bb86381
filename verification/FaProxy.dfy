/** From faproxy's rules to the text that leaves it. */
module FaProxy {
  import opened Bytes
  import opened Rules
  import opened Sequences
  import opened FaLookup
  import opened FaRewriter
  import FaRules

  /** What the two tries of a direction stand for after their insertions. */
  function RuleBook(never: seq<FaRules.Insertion>, other: seq<FaRules.Insertion>): Book {
    Book(FaRules.After(never), FaRules.After(other), SPACE as int)
  }

  /** Which texts are replaced, and by what, in terms of what was inserted. */
  lemma FiresIff(never: seq<FaRules.Insertion>, other: seq<FaRules.Insertion>, w: Text)
    ensures var (k, book) := (LowerText(w), RuleBook(never, other));
      && book.WellFormed()
      && (book.Fires(w) <==>
            2 <= |w| && SPACE < w[0] && (FaRules.LastText(never, k) != [] || FaRules.LastText(other, k) != []))
      && (book.Fires(w) ==>
            book.Replacement(w) == (if FaRules.LastText(never, k) != [] then FaRules.LastText(never, k)
                                    else FaRules.LastText(other, k)))
  {
    FaRules.RulesAreWellFormed(never);
    FaRules.RulesAreWellFormed(other);
    FaRules.LastInsertionWins(never, LowerText(w));
    FaRules.LastInsertionWins(other, LowerText(w));
  }

  /** Rules inserted in any order and case, a stream read in any pieces: what has left and
  what is still held is the whole-text rewriting of all that was read, and only the bytes since
  nothing began a key are held. Without rules the stream leaves as it is. */
  method RewriteReads(never: seq<FaRules.Insertion>, other: seq<FaRules.Insertion>, chunks: seq<Text>)
      returns (output: Text, holding: Text)
    ensures output + holding == Rewritten(RuleBook(never, other), Concat(chunks))
    ensures Held(RuleBook(never, other), Rewrite(RuleBook(never, other), Concat(chunks)).tail, holding)
    ensures never == [] && other == [] ==> output == Concat(chunks) && holding == []
  {
    hide FaRules.After, Rewritten, Rewrite, Agrees, Held, Concat, TransformHandler.Valid;
    ConcatNothing<byte>();
    FaRules.RulesAreWellFormed(never);
    FaRules.RulesAreWellFormed(other);
    var h := new Payload(FaRules.After(never), FaRules.After(other));
    NothingRead(RuleBook(never, other));
    var i := 0;
    while i < |chunks|
      invariant i <= |chunks| && fresh(h) && fresh(h.db) && fresh(h.db.lookups) && h.Valid()
      invariant h.fed == Concat(chunks[..i])
      invariant h.output + h.holding == Rewritten(RuleBook(never, other), Concat(chunks[..i]))
      invariant Held(RuleBook(never, other), Rewrite(RuleBook(never, other), Concat(chunks[..i])).tail, h.holding)
    {
      ConcatPush(chunks, i);
      var ret := h.Load(chunks[i]);
      i := i + 1;
    }
    assert chunks[..i] == chunks;
    output, holding := h.output, h.holding;
    NoInsertions(never, other, Concat(chunks), output, holding);
  }

  lemma NoInsertions(never: seq<FaRules.Insertion>, other: seq<FaRules.Insertion>, t: Text, output: Text, holding: Text)
    requires output + holding == Rewritten(RuleBook(never, other), t)
    requires Held(RuleBook(never, other), Rewrite(RuleBook(never, other), t).tail, holding)
    ensures never == [] && other == [] ==> output == t && holding == []
  {
    hide Held, Rewritten, Rewrite;
    if never == [] && other == [] {
      NoRulesNoChange(RuleBook(never, other), t);
      SilentHoldsNothing(RuleBook(never, other), t, holding);
    }
  }

  lemma NothingRead(book: Book)
    ensures Rewritten(book, []) == [] && Held(book, Rewrite(book, []).tail, [])
  {
    NothingHeld(book);
  }
}
