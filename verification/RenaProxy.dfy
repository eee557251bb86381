/** From rena's rules to the text that leaves it. */
module RenaProxy {
  import opened Bytes
  import opened Rules
  import opened RenaMatching
  import opened RenaExactness
  import opened RenaRules

  /** What the two tries of a side stand for after their insertions. */
  function RuleBook(side: seq<Insertion>, never: seq<Insertion>): Book {
    Book(After(side).d, After(never).d, -129)
  }

  /** The matchers' assumptions on a rule set hold whatever was inserted, found again or not. */
  lemma RuleBookIsRena(side: seq<Insertion>, never: seq<Insertion>)
    ensures RenaBook(RuleBook(side, never))
  {
    hide After;
    RulesAreWellFormed(side);
    RulesAreWellFormed(never);
  }

  /** Which texts are replaced, and by what, when every key is found again. */
  lemma FiresIff(side: seq<Insertion>, never: seq<Insertion>, w: Text)
    requires GoodRun(side) && GoodRun(never) && w != []
    ensures var (k, book) := (LowerText(w), RuleBook(side, never));
      && (book.Fires(w) <==> 2 <= |w| && (FirstText(side, k).Some? || FirstText(never, k).Some?))
      && (book.Fires(w) ==> book.Replacement(w) == FirstText(side, k).GetOr(FirstText(never, k).GetOr([])))
  {
    hide After, GoodRun;
    FirstInsertionWins(side, LowerText(w));
    FirstInsertionWins(never, LowerText(w));
  }

  /** Inserted rules without a clash: the stream's text is the specification's for what the
  tries hold, one byte behind. */
  lemma RulesToText(side: seq<Insertion>, never: seq<Insertion>, t: Text)
    requires Safe(RuleBook(side, never)) && t != []
    ensures var (book, s) := (RuleBook(side, never), Run(RuleBook(side, never), Permitted(t)));
      var r := Rewrite(book, t[..|t| - 1]);
      Rendered(s.done) + s.Tail() == Rendered(r.pieces) + (r.tail + [t[|t| - 1]])
  {
    hide Safe, RenaBook, Run, Rewrite, Rendered;
    RuleBookIsRena(side, never);
    SafeIsExact(RuleBook(side, never), t);
  }
}
