# Verified models of the proxies' rewriting, parsing and connection state

Two C programs, `rena` and `faproxy`, and a Python eCAP helper rewrite domain names in the
HTTP traffic that passes through them. This project models their stateful parts in Dafny and
proves what those parts promise. `dafny verify dfyconfig.toml` checks everything.

## What is modelled

**Stream rewriting.** Rules live in a child/sibling trie (`TrieHeap`, `TrieView`, `FaTrie`,
`RenaTrie`), and a sequence of insertions is a dictionary (`FaRules`, `RenaRules`). Bytes arrive
one at a time; every suffix of what was read that is the beginning of a key is a partial match
(`PartialMatches`). `Rules.Rewrite` is the whole-text specification: take the smallest end at
which a key matches, there the longest key, replace it, start again behind it.

* faproxy (`FaLookup`, `FaRewriter`) keeps its partial matches in an array, fires as soon as a key
  is complete, and agrees with the specification for every rule set, every stream and every way
  the stream is cut into reads. `FaProxy` goes from inserted rules to the rewritten text, and
  `FaTries` does so with the nodes of the built tries on the heap.
* rena keeps a linked list (`RenaLookup`), lets a completed key wait until every partial match but
  a new one has died, and cuts it off the end of the bytes it holds. `RenaMatching` is that machine on
  values, with what it keeps for every rule set and every verdict of a context; `RenaPending` says
  which key is pending and when it is replaced, in terms of the keys alone; `RenaExactness`
  shows that it meets the specification on every text if and only if no key and no inner node of
  the tries end with one another, and when the bytes show it; `RenaGated` and `RenaContexts` say
  when the bytes cut under a context are those that were matched; `RenaPull` is the byte loop on the
  real objects, the client's growing buffer included, and `RenaLongHolds` says for which rules held
  bytes outgrow that buffer. `RenaProxy` goes from inserted rules to the stream's text, and
  `RenaTries` does so with the nodes of the built tries on the heap.

**Contexts.** `FullLinkContext` and `HtmlContext` are the automata that say which bytes rena's
matcher may see. Each is compared with a definition that does not mention stages: a text read as
link bodies, and HTML read by descent.

**HTTP heads.** `HttpBuffer` is the growing buffer behind `struct http`, with pointers that follow
it when it moves. `HttpHead` is the six-state scan as a function, compared with the print of a
head (section 3 of RFC 7230, with the folding of its section 3.2.4); `HttpHeaders` is the scan and
the removal of fields on the structure itself, and `HttpForward` the head that is sent on.

**Shared and linked state.** `Clients` is the circular list of connections, `QueueMonitor` the
bounded queue as a machine over single statements of any number of threads, `TaskQueue` the same
queue and the dropping of a descriptor's tasks on the heap, `Election` the double-checked choice
of the dispatching thread, `ByteRing` the ring of bytes towards a socket (`Rings` is shared).

**The Python adapter.** `HtmlAdapter` is the parsers of the eCAP helper as a machine over bytes,
`HtmlReading` the same body read by descent, and `EcapReply` the shared dictionary and the calls that rewrite a body, HTML or not.

## Where the code does less than one may expect

Each item names the lemma or contract with the condition, exact where it says if and only if, and
the concrete inputs.

* rena stores a key's letters as written but looks them up in lower case. A key is found after its
  insertion if and only if each of its upper-case letters meets a node that is there already
  (`RenaRules.FoundIffGood`). When its first letter meets none and is smaller than the root's
  value, the root moves: then exactly the rules that begin below the letter are lost
  (`RenaTrie.TreeInsert`, `RenaRules.RuleStaysIff`, `RenaRules.AllRulesStayIff`). Inserting "Cd"
  after "ab" leaves no rule at all (`RenaRules.CapitalLosesRule`). After any insertions a rule is
  there if and only if some insertion of it was found and not lost since (`RenaRules.RuleIff`).
* rena's matcher leaves the specification on some text if and only if one key can be completed
  while a partial match, begun before it or inside it, goes on (`RenaExactness.ExactIffSafe`). For
  every such clash a text is constructed on which the split differs
  (`RenaExactness.ClashDeviates`), and one on which the bytes differ when every key has a letter or
  changes the text (`RenaExactness.ClashShows`, `RenaExactness.ExactBytesIffSafe`). A key completed
  by the last byte of all is not replaced.
* Under a context the matcher may see a key whose bytes do not stand together; then the bytes cut
  are not those matched. Without a clash this happens on no text, in HTML, if and only if no key
  has a `<` (`RenaContexts.HtmlCutsMatchIff`), and in links if and only if no key ends a link, be it
  right behind a backslash (`RenaContexts.LinkCutsMatchIff`). The same conditions say exactly when
  no text has a broken key (`RenaContexts.HtmlKeysUnbrokenIff`,
  `RenaContexts.LinkKeysUnbrokenIff`). With the key "fb" and the links of `//\f//bc` it is "/b"
  that is cut (`RenaContexts.BrokenKeyCutsOther`).
* One append to the client's buffer is safe in every history if and only if it is at most twice the
  structure's size (`HttpBuffer.SafeAppendLength`); one byte more first fills a block and the next
  time overruns it (`HttpBuffer.FullBlockOverruns`). rena's appends are not bounded: where some byte
  begins no key, the appends of every stream fit if and only if there are no rules
  (`RenaLongHolds.StreamsFitIffIdle`, `RenaLongHolds.InsertedStreamsFitIff`). A byte that begins a
  key, repeated, is held however often it comes (`RenaLongHolds.AllHeld`), and behind enough other
  bytes the flush of 2210 of them is written past the block (`RenaLongHolds.LongHoldOverruns`).
* Dropping a closed descriptor's tasks leaves none of them if and only if the queue has room or
  held none: when it is full, `in` equals `out` (`TaskQueue.Queue.DropFd`). The queue of 4096
  filled with the descriptor's tasks keeps them all (`TaskQueue.FullQueueKeepsTasks`).
* A new scan agrees with the table that a removal left if and only if it left a field
  (`HttpHeaders.RescanAgreesIff`); it does not after removing a lone `Connection`
  (`HttpHeaders.LoneFieldIsNotSeenGone`).
* In rena's HTML context a `>` read inside a tag ends it if and only if it belongs to no attribute
  value, and the `>` that ends an unquoted value belongs to it (`HtmlContext.TagEndsIffPlain`):
  after `<a b=c>` the context is still inside the tag (`HtmlContext.UnquotedValueKeepsTagOpen`).
* The backslash tests of the Python parsers compare a number with bytes and always succeed. Inside a
  tag that matters if and only if a `>` or `=` follows a backslash
  (`HtmlAdapter.TagEscapeMattersIff`), inside an attribute never
  (`HtmlAdapter.AttributeEscapeIsIdle`). In every text a `>` read inside a tag ends it if and only if
  it belongs to no attribute value, the `>` that ends one included (`HtmlAdapter.GreaterLeavesTagIff`); `HtmlAdapter.TwoTags`
  has `<a=>`, which stays in the tag, and `<a\>`, which leaves it.
* The Python helper gives a body that is not HTML back unchanged, with a rewriter that changes
  nothing, if and only if it does not begin with `mailto:`; such a body is lost
  (`EcapReply.OtherBodyKeptIff`).

## Model

| member | source | states |
|---|---|---|
| Rules.RewriteExtends | faproxy/src/http.c:242-291 | The whole-text rewriting of a stream can be computed one byte at a time: a new byte either ends a key behind the last replacement, and the longest one is replaced, or is kept. |
| Rules.FirstEnd | faproxy/src/database_internal.c:142-149 | The smallest end of a key: a key ends there and none ends earlier. |
| Rules.KeyStart | faproxy/src/database_internal.c:112-153 | The longest key that ends with a text: it fires and none that begins earlier does. |
| PartialMatches.SuffixesStep | faproxy/src/database_internal.c:112-191 | Advancing every partial match by a byte and opening the new ones at the end gives the partial matches of the longer text, longest first. |
| PartialMatches.SuffixesUpStep | rena/src/database.c:294-352 | The same for the list that grows at its head, shortest first. |
| PartialMatches.SuffixesExact | faproxy/src/database_internal.c:31-54 | One entry per trie and suffix that spells a node of it, no other, by decreasing depth with the never-proxy trie first: the plain append is at the place the search finds. |
| PartialMatches.SuffixesUpExact | rena/src/database.c:226-233 | rena's list has exactly one entry per trie and suffix that spells a node, by increasing depth. |
| PartialMatches.FirstRuleIsKey | faproxy/src/database_internal.c:112-152 | The first advanced entry with a replacement exists exactly when some key ends at the byte read, and then it is the longest such key. |
| FaLookup.TransformHandler.InsertBasedOnDepth | faproxy/src/database_internal.c:6-54 | The array with the new lookup appended; the place the depth search finds is its end. |
| FaLookup.TransformHandler.RemoveAt | faproxy/src/database_internal.c:128-137 | The array without the lookup that could not read the byte. |
| FaLookup.TransformHandler.AdvanceLookups | faproxy/src/database_internal.c:112-153 | In place: every lookup that can read the byte one node further, the others gone; or the first one that completes a key, and nothing left. |
| FaLookup.TransformHandler.StartLookups | faproxy/src/database_internal.c:155-191 | A lookup for each trie with a node for the byte, never-proxy first; none for bytes up to the space. |
| FaLookup.TransformHandler.TransformLookup | faproxy/src/database_internal.c:96-195 | The answer is a replacement exactly when a key ends at the byte, of the longest one and with its length; otherwise to hold exactly when some suffix begins a key. |
| FaRewriter.StepKeeps | faproxy/src/http.c:254-291 | The held bytes always cover the replaced key, so the size never underflows; output and held bytes stay the rewriting of what was read, and held are exactly the bytes since the last place where nothing began a key. |
| FaRewriter.Payload.LoadByte | faproxy/src/http.c:242-291 | One byte on the objects keeps the agreement with the specification; the output only grows. |
| FaRewriter.Payload.Load | faproxy/src/http.c:200-291 | For every sequence of reads, output and held bytes are the whole-text rewriting of all bytes read; held are exactly the bytes since the last place where nothing began a key; the result is -1 for no bytes, 1 when all were held on, else 0. |
| FaRewriter.NoRulesNoChange | faproxy/src/http.c:254-266 | Without rules nothing begins a key, and every text is its own rewriting. |
| FaTrie.AddSibling | faproxy/src/tree.c:43-77 | The node of the value in an ordered sibling list: the one there is, or one new node spliced into its place. |
| FaTrie.AddChild | faproxy/src/tree.c:79-100 | The child for a value, found or made, and every other node's place unchanged. |
| FaTrie.TreeInsert | faproxy/src/tree.c:102-147 | The trie stands for the dictionary with every beginning of the lower-cased key and the text, cut to the field's size, if one was given. |
| FaTrie.StoredIsBeginning | faproxy/src/tree.c:141-142 | The stored text is the beginning of the given one, all of it up to 1023 bytes. |
| FaTrie.GetSibling | faproxy/src/tree.c:149-166 | The early exit on order misses nothing: the result is the node of the value ignoring case, or null when there is none. |
| FaTrie.Walk | faproxy/src/tree.c:168-178 | Following a text reaches a node exactly for beginnings of keys, and a replacement exactly for keys, ignoring case. |
| FaRules.LastInsertionWins | faproxy/src/tree.c:102-147 | After any insertions a key's replacement is its last non-null one, whatever the case; the nodes are the beginnings of keys. |
| FaRules.RulesAreWellFormed | faproxy/src/tree.c:102-147 | The dictionaries have the form the matchers rely on: closed under beginnings, and in lower case. |
| FaRules.Build | faproxy/src/tree.c:102-147 | Inserting a sequence into an empty trie gives the dictionary that the other rows speak about. |
| FaProxy.FiresIff | faproxy/src/database.c:12-36 | A text fires exactly when it has two bytes or more, begins above the space, and its key was inserted with a text in either trie; never-proxy's last text wins. |
| FaProxy.RewriteReads | faproxy/src/http.c:242-291 | From any insertions and any reads: output and held bytes are the whole-text rewriting, by the inserted rules, of all that was read, and held are exactly the bytes since nothing began a key; without insertions the stream leaves as it is. |
| FaTries.Tries.MatchByte | faproxy/src/database_internal.c:96-195 | On the nodes of two heap tries: children found by `tree_get_child` and texts stored at nodes give the answer that the specification decides, and the nodes of the next partial matches. |
| FaTries.RewriteOnTries | faproxy/src/tree.c:102-178 | Tries built on the heap by any insertions and a stream matched by following their nodes: output and held bytes are the whole-text rewriting by the inserted rules, and held are exactly the bytes since nothing began a key. |
| RenaTrie.GetSibling2 | rena/src/tree.c:139-157 | The node of the value, or its predecessor, or that there is none, with the exact place in the ordered list where it is or belongs. |
| RenaTrie.AddSibling | rena/src/tree.c:44-64 | The node for a byte, found in lower case or made with the byte as written and spliced into its exact place; the view grows by it or stays. |
| RenaTrie.AddChild | rena/src/tree.c:66-89 | The same below a node. |
| RenaTrie.AddTop | rena/src/tree.c:97-101 | The same at the root. The paths afterwards are exact: all, or, when a new upper-case node becomes the root, exactly those that begin above it. |
| RenaTrie.TreeInsert | rena/src/tree.c:91-124 | The whole effect on dictionary and root value, for every key: the rules below a moved root go, the key's beginning up to the first lost byte is opened, and the rule is added when no byte is lost and none is there. |
| RenaTrie.Walk | rena/src/tree.c:126-137 | Following a text reaches a node and its replacement exactly as the dictionary says, ignoring case. |
| RenaRules.Build | rena/src/tree.c:91-124 | The trie after any insertions, found again or not, stands for the content that the other rows speak about. |
| RenaRules.FoundIffGood | rena/src/tree.c:91-124 | A key is found after its insertion exactly when each of its upper-case letters met a node; otherwise not even its path is there. |
| RenaRules.GoodIff | rena/src/tree.c:139-157 | A key is good exactly when the way up to each of its letters A to Z is there. |
| RenaRules.MovesRootIff | rena/src/tree.c:97-101 | The root moves past what it was exactly for a first letter A to Z that meets no node and is below the root's value. |
| RenaRules.RuleStaysIff | rena/src/tree.c:97-101 | An insertion loses a rule exactly when it moves the root past the rule's first byte, changes no text, and adds no rule but a found key's. |
| RenaRules.AllRulesStayIff | rena/src/tree.c:97-101 | Every earlier rule survives exactly when the root does not move, or every rule begins above its new value. |
| RenaRules.RuleIff | rena/src/tree.c:91-124 | After any insertions a rule is there exactly when some insertion of it was found and has not been lost since, and its text is that of the first such insertion. |
| RenaRules.CapitalLosesRule | rena/src/tree.c:97-101 | "ab", then "Cd": no rule is left. |
| RenaRules.FirstInsertionWins | rena/src/tree.c:108-121 | When every key is found again, a key's replacement is the first one inserted, the empty text standing for a missing one. |
| RenaRules.LowerCaseIsGood | rena/src/tree.c:91-124 | Rules written in lower case are always found again. |
| RenaRules.FreshCapitalIsLost | rena/src/tree.c:139-144 | A key whose first letter is upper-case and new is not found after its insertion, nor is any path to it. |
| RenaRules.RulesAreWellFormed | rena/src/tree.c:91-124 | The dictionaries are closed under beginnings and in lower case, whatever was inserted. |
| RenaProxy.FiresIff | rena/src/database.c:50-95 | When every key is found again, a text fires exactly when it has two bytes or more and its key was inserted in either trie; the side's first text wins. |
| RenaProxy.RulesToText | rena/src/http.c:276-332 | From any insertions without a clash: the bytes that the matcher lets go, flush included, are the specification's text of all but the last byte, and that byte. |
| RenaTries.Tries.LookupByte | rena/src/database.c:336-373 | On the nodes of two heap tries: children found by `tree_get_child` and texts stored at nodes give the matcher's answer, its cut and the nodes of the next partial matches. |
| RenaTries.StreamOnTries | rena/src/tree.c:91-157 | Tries built on the heap by any insertions and a stream, under any verdicts, matched by following their nodes: what leaves is what the machine on the inserted rules sends. |
| RenaLookup.DatabaseObject.AddInput | rena/src/database.c:235-250 | The input with the byte behind it, across reallocations. |
| RenaLookup.DatabaseObject.ConsumeInput | rena/src/database.c:257-272 | The input without its last bytes, or the abort, exactly when there are fewer. |
| RenaLookup.DatabaseObject.GetHolding | rena/src/database.c:398-412 | Hands out and clears the input when no match is active or when forced, and nothing otherwise. |
| RenaLookup.DatabaseObject.Unlink | rena/src/database.c:212-224 | The list without one node, in place, and the node that follows it. |
| RenaLookup.DatabaseObject.ListPrepend | rena/src/database.c:226-233 | The list with a node before it, or as it was for null. |
| RenaLookup.DatabaseObject.ListForeach | rena/src/database.c:294-322 | In place: every entry that can read the byte one node further, the others unlinked, and the longest completed key pending. |
| RenaLookup.DatabaseObject.Lookup | rena/src/database.c:336-373 | The object does what the machine on values decides, and aborts exactly when more is cut than is held; the list is that of the suffixes of the accepted bytes. |
| RenaMatching.BestIsKey | rena/src/database.c:308-316 | The pending match is always a key of a trie, of the recorded length, and no longer than what is held. |
| RenaMatching.DecideKeeps | rena/src/database.c:336-373 | A byte is let go only when nothing is active or pending, held only when something is, and a replacement fits in the held bytes. |
| RenaMatching.StepKeepsInv | rena/src/database.c:336-373 | A pending key implies active matches and fits in the held bytes, after every byte and verdict. |
| RenaMatching.RunConserves | rena/src/http.c:276-332 | For any rules and verdicts: the abort is never reached, output and held bytes are the input with disjoint cuts, each as long as the key whose replacement took its place, and the matcher has followed the accepted bytes. |
| RenaMatching.StepTail | rena/src/http.c:283-326 | A byte makes one replacement, of bytes before it, or is kept behind the rest. |
| RenaPending.MatcherStep | rena/src/database.c:336-373 | For any rules and verdicts: a byte makes a replacement exactly when it is permitted, a key is pending and no partial match goes on, and then the pending key is cut off the end; otherwise all is let go when nothing begins a key, and the byte is held when something does. |
| RenaPending.PendingIsLongest | rena/src/database.c:297-316 | For any rules and verdicts: pending is the longest of the keys that ended in the accepted bytes since the last replacement, the first of its length, with its replacement; none exactly when no key ended there. |
| RenaExactness.BestIsLongest | rena/src/database.c:297-316 | Without a pending match, visiting the list in order ends with the longest key that ends at the byte. |
| RenaExactness.SafeFollows | rena/src/database.c:336-373 | Without a clash the machine follows the specification one byte behind, with the pending key exactly the one that ends there. |
| RenaExactness.SafeIsExact | rena/src/http.c:276-332 | Without a clash rena's rewriting of any text is the specification's of all but the last byte, and that byte. |
| RenaExactness.ClashDeviates | rena/src/database.c:346-362 | For every clash there is a text that rena splits into other pieces than the specification. |
| RenaExactness.ExactIffSafe | rena/src/database.c:336-373 | rena's pieces are the specification's on every text exactly when no key of its rules and no node with children end with one another. |
| RenaExactness.ClashShows | rena/src/database.c:346-362 | For every clash of rules that change the text or have a letter, there is a text that leaves rena with other bytes. |
| RenaExactness.ExactBytesIffSafe | rena/src/database.c:336-373 | For such rules the bytes are the specification's on every text exactly when there is no clash. |
| RenaGated.CutsSpellKeys | rena/src/database.c:336-373 | Under any verdicts, without a clash: every cut spells the key whose replacement it gets, when no rejected byte breaks a key. |
| RenaGated.UnbrokenCutsMatch | rena/src/database.c:336-373 | Then also the bytes cut are the bytes matched, at every replacement. |
| RenaGated.KeyIsPending | rena/src/database.c:294-316 | Without a clash a key that has been read, or a longer one ending with it, is pending, and no partial match goes on. |
| RenaContexts.KeysUnbrokenIff | rena/src/database.c:336-373 | For any automaton that can be opened again: no text has a broken key exactly when every key, begun where it may begin, leaves a permitting stage after each of its bytes. |
| RenaContexts.CutsMatchIff | rena/src/database.c:336-373 | For such an automaton and rules without a clash: on every text the bytes cut are those matched, exactly under the same condition. |
| RenaContexts.HtmlKeysUnbrokenIff | rena/src/context_html.c:135-192 | With the HTML context no text has a broken key exactly when no key has a `<`. |
| RenaContexts.HtmlCutsMatchIff | rena/src/context_html.c:135-192 | With the HTML context and rules without a clash, the bytes cut are those matched on every text exactly when no key has a `<`. |
| RenaContexts.HtmlCutsSpellKeys | rena/src/context_html.c:135-192 | Then every cut spells its key. |
| RenaContexts.LinkKeysUnbrokenIff | rena/src/context_full_link.c:21-86 | With the link context no text has a broken key exactly when no key ends a link, from its beginning or right behind a backslash. |
| RenaContexts.LinkCutsMatchIff | rena/src/context_full_link.c:21-86 | With the link context and rules without a clash, the bytes cut are those matched on every text exactly under that condition. |
| RenaContexts.LinkCutsSpellKeys | rena/src/context_full_link.c:21-86 | Then every cut spells its key. |
| RenaContexts.BrokenKeyCutsOther | rena/src/context_full_link.c:21-86 | With the one key "fb", the link context's own verdicts on `//\f//bc` make the matcher cut "/b". |
| RenaPull.StepOutput | rena/src/http.c:283-326 | What a byte adds to the output and leaves held, by the matcher's answer. |
| RenaPull.Connection.PullByte | rena/src/http.c:276-332 | One turn of the byte loop on the objects, the client's buffer included, is one step of the machine, whenever its appends fit. |
| RenaPull.Connection.Pull | rena/src/http.c:263-340 | Reads of any sizes run the machine over all bytes read, whenever their appends fit. |
| RenaPull.Connection.Flush | rena/src/http.c:183-204 | At the end of the stream the held bytes leave as they are. |
| RenaPull.RewriteStream | rena/src/http.c:243-349 | From the first read to the flush, the client's buffer ends with the machine's text of the whole stream, whenever the appends fit. |
| RenaPull.StreamFacts | rena/src/http.c:243-349 | That text is the stream with disjoint replacements, each of a key's length; without a clash it is the specification's text of all but the last byte, and that byte. |
| RenaPull.ShortHoldsFit | rena/src/http.c:128-171 | All appends of a stream fit, and leave a spare byte, when no replacement is longer than two structures and never as much is held. |
| RenaLongHolds.AllHeld | rena/src/database.c:336-373 | For all rules: a byte that begins a key, repeated, is held whole. |
| RenaLongHolds.LongHoldOverruns | rena/src/http.c:128-204 | For all rules and any length from 2210 on: such a hold, flushed behind enough bytes that begin no key, uses more bytes than the block has. |
| RenaLongHolds.StreamsFitIffIdle | rena/src/http.c:128-204 | Where some byte begins no key, all appends of all streams fit exactly when there is nothing to match; then under any verdicts. |
| RenaLongHolds.InsertedStreamsFitIff | rena/src/http.c:128-204 | The same of inserted rules: exactly when both tries are empty. |
| FullLinkContext.Context.Judge | rena/src/context_full_link.c:21-86 | The verdicts on a text are the same however it is cut into calls. |
| FullLinkContext.PermitsLinkBodies | rena/src/context_full_link.c:21-86 | Exactly the bytes of link bodies are permitted, for every way to read a text as links. |
| FullLinkContext.EveryTextIsLinks | rena/src/context_full_link.c:21-86 | Every text is stretches that end with the first `//` or `/\/`, each followed by a body up to white space or its escaped form. |
| FullLinkContext.BytesSpelled | rena/src/context_full_link.c:21-30 | Which bytes end a link: the six of white space, and t, v, n, r, f in either case behind a backslash. |
| HtmlContext.Context.Evaluate | rena/src/context_html.c:151-192 | No byte takes the stage out of the sixteen, the additions to it included. |
| HtmlContext.PermitsAsMarked | rena/src/context_html.c:31-192 | The automaton permits what reading the HTML by descent marks as allowed, from every part of a text on. |
| HtmlContext.PermittedSinceValue | rena/src/context_html.c:135-192 | A byte is permitted exactly when a byte of an attribute value, possibly itself, has come since the last `<` that opened a tag. |
| HtmlContext.QuotedValueEnds | rena/src/context_html.c:61-106 | A quoted value ends at the first matching quote behind an even number of backslashes, and nowhere else. |
| HtmlContext.BytesSpelled | rena/src/context_html.c:61-90 | An unquoted value ends at white space or `>`. |
| HtmlContext.TagEndsIffPlain | rena/src/context_html.c:31-106 | A `>` read inside a tag ends it exactly when it is no byte of an attribute value, the one that ends the value included. |
| HtmlContext.UnquotedValueKeepsTagOpen | rena/src/context_html.c:69-106 | After `<a b=c>` the context is inside the tag, after `<a b>` outside. |
| HttpBuffer.TwoStructsFit | rena/src/http.c:132-140 | Behind a spare byte, a request of at most two structures fits after the growth, with a byte to spare again. |
| HttpBuffer.SafeAppendLength | rena/src/http.c:128-154 | Twice the structure's size is exactly the largest append that never overruns, in every history of appends. |
| HttpBuffer.FullBlockOverruns | rena/src/http.c:128-154 | Behind a block full up to its last byte, one byte over twice the structure fills the next block and overruns the one after; two bytes over overrun at once. |
| HttpBuffer.CopyInternalData | rena/src/http.c:108-126 | The larger block has the same contents, and its header and payload pointers point into itself at the same places. |
| HttpBuffer.ReallocationProtocol | rena/src/http.c:128-154 | The client's structure is the old one or a new one with the same contents and places. |
| HttpBuffer.ForceOntoBuffer | rena/src/http.c:156-171 | Whenever the copy stays inside the block, up to its last byte, the buffer is what it was and the appended bytes, wherever it now is; headers and payload keep their places. |
| HttpHead.ParseRecords | rena/src/http.c:521-588 | On any bytes, recorded fields and the payload lie within the used bytes, and a scan that finds the payload has recorded a field. |
| HttpHead.ParseField | rena/src/http.c:552-572 | A field, folded or not, becomes one slice. |
| HttpHead.DowngradeStands | rena/src/http.c:535-548 | The version downgrade turns the print of a head into the print with the downgraded first line, and changes nothing behind it. |
| HttpHead.ScanPrinted | rena/src/http.c:498-589 | Scanning a printed head with at least one field reports exactly the printed fields, in order, and the offset behind the blank line. |
| HttpHead.ScanAgreesIff | rena/src/http.c:552-572 | The scan of a printed head reports its table and payload exactly when it has a field. |
| HttpHead.SecondScanAgrees | rena/src/http.c:1080-1107 | The pass that saves the fields finds as many as the pass that counted them. |
| HttpHead.SliceHoldsField | rena/src/http.c:559-561 | A slice holds its field's text, and a line end follows it. |
| HttpHead.BytesSpelled | rena/src/http.c:521-572 | Line ends are CR and LF, blanks are space and tab, the version looked for is HTTP/1. |
| HttpHeaders.BufferFind | rena/src/http.c:54-68 | The first position with one of the bytes, or -1 when there is none. |
| HttpHeaders.ProcessHeadersAndGetPayload | rena/src/http.c:498-589 | The loop over the buffer computes the scan, in place. |
| HttpHeaders.CaseEqual | rena/src/http.c:74-75 | The comparison ignores case and never reads past the end of the line. |
| HttpHeaders.FindHeader | rena/src/http.c:70-81 | The first field with the name in any case, or -1 when there is none, also for names longer than a field. |
| HttpHeaders.PrintWithout | rena/src/http.c:811-814 | Cutting a field's bytes out of a print gives the print of the other fields and the same body. |
| HttpHeaders.FindAndRemoveHeader | rena/src/http.c:789-829 | Exactly the first field with the name goes: the buffer is the print of the rest, and the table and the payload describe it. |
| HttpHeaders.RescanAgreesIff | rena/src/http.c:789-829 | A new scan after a removal agrees with the shifted table exactly when a field is left. |
| HttpHeaders.LoneFieldIsNotSeenGone | rena/src/http.c:552-572 | A head whose only field `Connection` is removed is not recognised again. |
| HttpForward.EvaluateHeaders | rena/src/http.c:1080-1110 | From the bytes of a printed head to the one sent on: version downgraded, this side's two names removed, table and payload consistent. |
| HttpForward.ForwardedIsPassedOn | rena/src/http.c:955-973 | In order and less the first field with each name: a requester's "Connection" and "Accept-Encoding" go, a victim's "Content-Length" and "Accept-Ranges"; the body stays. |
| HttpForward.NamesAreGone | rena/src/http.c:955-973 | When neither name comes twice, no field sent on has one of them, in any case. |
| HttpForward.NewVersionGoes | rena/src/http.c:535-548 | A line that ends with HTTP/1.1 ends with HTTP/1.0 afterwards and is the same before it. |
| HttpForward.OtherLinesStay | rena/src/http.c:535-548 | A line without HTTP/1 before its last two bytes stays. |
| HttpForward.RequestForwarded | rena/src/http.c:966-973 | Of a GET with Host, Connection and Accept-Encoding the host is left, under HTTP/1.0. |
| HttpForward.RequestBytes | rena/src/http.c:966-973 | The same request and what is sent on, byte by byte. |
| Clients.Clients.Add | rena/src/clients.c:230-259 | One new node with one side before all others, in a well-formed ring. |
| Clients.Clients.SearchPointer | rena/src/clients.c:261-281 | Zero exactly for nodes in the list. |
| Clients.Clients.Search | rena/src/clients.c:360-400 | The first node in list order with the descriptor, its requester first; nothing exactly when no record has it. |
| Clients.Clients.AddPeer | rena/src/clients.c:500-532 | The missing side of the node that the position names, or the source's error codes and no change. |
| Clients.Clients.DestroySides | rena/src/clients.c:300-325 | A requester goes with its victim; a victim whose requester lives is freed exactly when it had hung up with everything sent, and only hangs up otherwise. |
| Clients.HungUpIff | rena/src/clients.c:300-325 | A victim has hung up when its descriptor is closed and it has no protocol or as much sent as used. |
| Clients.SentDoneIff | rena/src/http.c:1190-1196 | All is sent exactly when nothing of the buffer is left to send. |
| Clients.Clients.Unlink | rena/src/clients.c:329-334 | The ring without one node is a well-formed ring. |
| Clients.Clients.Del | rena/src/clients.c:283-358 | Deleting a requester or a last side always removes the node and frees its records; otherwise the list stays; a stale position changes nothing. |
| Clients.Clients.Destroy | rena/src/clients.c:157-193 | Every node and record is freed, none twice. |
| QueueMonitor.StepKeepsInv | rena/external/queue/queue.c:3-30 | Every single statement of every thread keeps the mutex and the ring consistent. |
| QueueMonitor.RunIsFifo | rena/external/queue/queue.c:3-30 | After any interleaving what was dequeued is a prefix of what was enqueued, the size is within the capacity, `in` is `(out + size) mod capacity` when nobody is inside, and no access is out of range. |
| QueueMonitor.EnqueueGoesThrough | rena/external/queue/queue.c:3-14 | A thread let run while nobody is inside and there is room puts its value in. |
| QueueMonitor.DequeueGoesThrough | rena/external/queue/queue.c:16-30 | A thread let run while nobody is inside and there is a value gets the oldest. |
| QueueMonitor.NoRoomMeansWaiting | rena/external/queue/queue.c:3-21 | With a full queue, or an empty one, it waits again and nothing has changed. |
| TaskQueue.Queue.Enqueue | rena/external/queue/queue.c:9-12 | The queued tasks with one behind them. |
| TaskQueue.Queue.Dequeue | rena/external/queue/queue.c:22-26 | The oldest task, and the others in order. |
| TaskQueue.Queue.DropFd | rena/src/task_manager.c:41-64 | Every queued task keeps its descriptor, but those of the dropped one get -1, in place, when the queue has room; when it is full all keep theirs; none of the descriptor is left exactly when it had room or held none; order and length stay. |
| TaskQueue.FullQueueKeepsTasks | rena/src/task_manager.c:41-64 | The source's queue of 4096, filled through its own calls with one descriptor's tasks, keeps them all. |
| Election.StepKeepsRole | rena/src/task_runner.c:32-66 | Every statement keeps that at most one thread has the role and that the flag says whether one has. |
| Election.AtMostOneDispatcher | rena/src/task_runner.c:17-66 | In every reachable state at most one thread is between winning and handing back, and the flag is 1 exactly when one is. |
| Election.RoleIsFreeAtTheEnd | rena/src/task_runner.c:52-57 | Once every thread has left, the role and the lock are free. |
| Election.FreeRoleIsWon | rena/src/task_runner.c:32-48 | A thread let run while role and lock are free wins the role and dispatches. |
| Election.TakenRoleMeansWork | rena/src/task_runner.c:32-66 | While the role is taken it goes to a queued task. |
| Election.RoleIsHandedBack | rena/src/task_runner.c:46-57 | A dispatcher let run while the lock is free hands the role back. |
| ByteRing.Payload.Put | faproxy/src/request.c:134-158 | Accepts exactly the prefix that fits; consumed bytes and ring contents are the accepted bytes. |
| ByteRing.Payload.Copy | faproxy/src/request.c:190-219 | A prefix of the contents, and the ring as it was. |
| ByteRing.Payload.Consume | faproxy/src/request.c:160-181 | The oldest bytes go, all of them at most, and count as consumed. |
| ByteRing.Payload.WriteIndex | faproxy/src/request.c:152-153 | The writing place is the reading place plus the size, modulo 1024. |
| EcapReply.State.OutsideParser | squid/src/helpers/ecap_logic_reply.py:105-118 | A space or `<` ends a word, which is replaced only when words are not ignored; other bytes wait. |
| EcapReply.State.InsideParser | squid/src/helpers/ecap_logic_reply.py:121-133 | Inside a tag every byte passes, and only `!--`, `>` and `=` lead out. |
| EcapReply.State.IgnoreComment | squid/src/helpers/ecap_logic_reply.py:136-141 | In a comment every byte passes; it ends at a `>` behind two dashes anywhere in it. |
| EcapReply.State.AttributeParser | squid/src/helpers/ecap_logic_reply.py:144-170 | A value ends at the byte its first byte asks for, and is offered to the rewriter as a whole. |
| EcapReply.State.IncrementalAdaptation | squid/src/helpers/ecap_logic_reply.py:183-193 | The dispatch over the parsers runs the machine over the text, and tokens and waiting bytes account for all of it. |
| EcapReply.State.AdaptBody | squid/src/helpers/ecap_logic_reply.py:196-219 | HTML: nothing below the limit, otherwise everything decided, and every byte is parsed, waiting or returned. Other bodies: nothing before the end, then the whole as the rewriter changes it. |
| EcapReply.State.AdaptEnd | squid/src/helpers/ecap_logic_reply.py:228-243 | All returned bytes are the rendered tokens and the one unfinished context; never are both contexts non-empty. A body that is not HTML is the rewriter's answer, or None. |
| HtmlAdapter.IdentityRendersSource | squid/src/helpers/ecap_logic_reply.py:91-102 | With a rewriter that changes nothing the tokens render to their source. |
| HtmlReading.BodyIsRead | squid/src/helpers/ecap_logic_reply.py:105-170 | On every text the parsers make the tokens of reading by descent: words up to white space or `<`, tags up to `>`, `=` or `!--`, values up to their quote, white space or `>`, and comments up to the first `>` with two dashes before it in the comment. |
| HtmlReading.TokensAreRead | squid/src/helpers/ecap_logic_reply.py:105-170 | The same for a text parsed in one piece. |
| HtmlReading.SentIs | squid/src/helpers/ecap_logic_reply.py:91-170 | What is sent for each token: for a value the rewriter's answer, for a word the answer when a value before has one and no tag has begun since, and the source otherwise; nothing empty or beginning with "mailto:" is asked about. |
| HtmlReading.CommentIsKept | squid/src/helpers/ecap_logic_reply.py:121-141 | `<!--`, anything without dashes, `-->` is sent as it is, whatever the rewriter. |
| HtmlReading.LinkIsOffered | squid/src/helpers/ecap_logic_reply.py:144-164 | Of `<a h="v">` the value with its first quote is offered, and the answer sent in its place. |
| HtmlAdapter.OfferedIff | squid/src/helpers/ecap_logic_reply.py:105-118 | A word is offered exactly when an attribute value has been changed since the last tag began. |
| HtmlAdapter.StepKeeps | squid/src/helpers/ecap_logic_reply.py:105-170 | Every byte keeps that the tokens account for what was parsed and what was sent, and is itself accounted for. |
| HtmlAdapter.TagEscapeMattersIff | squid/src/helpers/ecap_logic_reply.py:121-133 | Honouring the backslash inside a tag would change a step exactly for a `>` or `=` behind one. |
| HtmlAdapter.AttributeEscapeIsIdle | squid/src/helpers/ecap_logic_reply.py:144-164 | Inside an attribute it would change none: the byte tested stands before the value. |
| HtmlAdapter.RunAccounts | squid/src/helpers/ecap_logic_reply.py:105-193 | The tokens made of any text and the waiting bytes are that text, each token well-formed. |
| HtmlAdapter.GreaterLeavesTagIff | squid/src/helpers/ecap_logic_reply.py:121-164 | In every text, a `>` read inside a tag ends it exactly when it is a token of its own; as the end of a value it leaves the parser in the tag; otherwise it is a byte of a value. |
| HtmlAdapter.TwoTags | squid/src/helpers/ecap_logic_reply.py:121-164 | `<a=>` stays in the tag; `<a\>` leaves it, which an honoured backslash would not. |
| EcapReply.AdaptHtml | squid/src/helpers/ecap_logic_reply.py:183-243 | For every split of an HTML body into chunks: the tokens are those of reading the body by descent, with the places where 512 bytes had come together; what is sent is what they render to and the unfinished rest; a rewriter that changes nothing gives the body back. |
| EcapReply.AdaptOther | squid/src/helpers/ecap_logic_reply.py:196-243 | For every split of another body into chunks: the rewriter's answer for the whole, or nothing. |
| EcapReply.OtherBodyKeptIff | squid/src/helpers/ecap_logic_reply.py:91-102 | A rewriter that gives back every text keeps such a body exactly when it does not begin with `mailto:`. |

## Left out

* The in-place array of faproxy's matcher and rena's linked list name a trie's node by its path; `FaTries` and `RenaTries` follow the pointers, and keep the partial matches in a sequence.
* `char` is taken as signed, as on x86; on a target with unsigned `char` the bytes from 0x80 on would compare differently.
* FaRewriter.Payload.Load: leaves out the staging of the first line and the content type; the model is the rewriting branch, always on. `accept_output` and `str_shift` move output to the ring and are not modelled; nor are buffer capacities there.
* FaRewriter.Payload.LoadByte: the same.
* FaProxy.RewriteReads: the same.
* FaTries.RewriteOnTries: the same.
* When both tries have a key at the same place, faproxy takes the never-proxy rule and rena the side's rule; the book's first dictionary is the one that wins.
* RenaPull.Connection.PullByte: leaves out the count of line ends and the evaluation of the headers that it starts (`HttpHeaders` has it), so the buffer only grows; and it covers streams whose appends stay inside their blocks (`AllFit`), as those without rules do (`RenaLongHolds.StreamsFitIffIdle`). What a copy past the block does is not modelled.
* RenaPull.Connection.Pull: the same as `PullByte`.
* RenaPull.RewriteStream: the same, and one call for the whole stream, all of whose bytes the context permits.
* RenaPull.Connection.Flush: the same, and it ends the stream; bytes fed after it are not modelled, and the structure's `Valid` is not promised.
* RenaPull.ShortHoldsFit: a condition on the run, for single streams; the condition on the rules is in `RenaLongHolds.StreamsFitIffIdle`.
* RenaLongHolds.StreamsFitIffIdle: supposes a byte that begins no key. With a key for each byte value nothing is let go before a replacement or the flush, and the lengths of the replacements decide.
* RenaProxy.RulesToText: speaks about the bytes that the matcher lets go, whatever buffer takes them, and without the evaluation of headers. The same holds for `RenaTries.StreamOnTries`.
* HttpBuffer.SafeAppendLength: uses 1104 for the size of the structure, where pointers have eight bytes; failing allocations are not modelled.
* HttpBuffer.ForceOntoBuffer: an append that does not fit its block writes behind it in C, and is not modelled.
* For a first line shorter than eight bytes the version test of the C code reads the field before the buffer, which is taken not to hold `HTTP/1`.
* HttpForward.EvaluateHeaders: covers printed heads with at least one field in a buffer with a byte to spare, as appends of up to twice the structure's size leave one (`HttpBuffer.SmallAppendsFit`); the cookie domain rewriting (`apply_on_domain`), the expected payload length and the choice of a context are not modelled.
* HttpHeaders.FindHeader: names must not contain line ends or NUL, as none of the source's names does; the byte it may read behind the buffer for a short field is arbitrary.
* Clients.Clients.Add: the initialisation of a record's mutex does not fail; descriptors, SSL objects and address lookups are foreign.
* Clients.Clients.Del: a requester position on a live node needs its requester, which the source dereferences for its log. Addresses are not reused after `free`.
* TaskQueue.Queue.Enqueue: is the part after the wait for room; `QueueMonitor` has the waiting. The same holds for `TaskQueue.Queue.Dequeue`.
* `QueueMonitor` and `Election` take each C statement as atomic and sequentially consistent; fairness and progress are not modelled.
* ByteRing.Payload.Consume: without the refill of the ring that follows the unlocking.
* EcapReply.State.AdaptBody: an exception of the rewriter, which returns None and keeps the accumulated bytes, is not modelled; None and no bytes are the same to the caller.
* HtmlAdapter.GreaterLeavesTagIff: about a text parsed in one piece; `HtmlReading.MadeIsRead` has the places where something was sent off in between.
* Sockets, epoll, OpenSSL, DNS, signals, logging, configuration, and reading rule files: foreign calls.
* The regular-expression rewriters of the Python controller, the login helpers and the caches: thin layers over libraries.
