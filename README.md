# disrupt-amr chopping engine in Dafny

This project models the chopping engine of the two disrupt-amr scripts.

- `chop_AMR.py` works in suffix mode. It removes a named entity or date from the end of a
  sentence.
- `disrput_AMR.py` works in substring mode. It replaces the first occurrence of a named entity
  or date as whole words with `UNK`, and leaves any later occurrence in place.

Both scripts take one decoded AMR record and produce the same kinds of output:

- a cleaned sentence;
- the candidate nodes, which are the sources of `name` and `date-entity` triples;
- a label for each candidate, built from its `:op*` and date-field values.

A selector (`willItChop`) picks where to chop. `chopTriples` splits the triples into two halves:

- the *incomplete* half, whose references to the chosen node become `UNK`;
- the *completion* half, which holds the node's own triples.

`chopGraph` builds each half with fresh metadata. A guard drops a chop whose incomplete sentence
is empty.

Modules:

- `PyStr` (`pystr.dfy`) models the Python string builtins the scripts use:
  - `str.isspace`, `split()`, `strip()`, `startswith`, `endswith`, `find`;
  - `replace(p, r, 1)`, `replace(p, "")`, `' '.join`, and the slice `[:-k]`.
- `Seqs` (`seqs.dfy`) holds the order-preserving filter and map that the scripts' append loops
  build.
- `AmrGraph` (`amr_graph.dfy`) holds the graph value and the steps that are identical in both
  scripts:
  - `parseOriginal` without decoding;
  - `getNameInfo` and `chopTriples`, as loops proved against specification functions;
  - `chopGraph`;
  - the first-stop search shared by both `willItChop` loops;
  - the emptiness guard.
- `ChopMode` (`chop_mode.dfy`) covers suffix mode: `willItChop`, `chopAMR` and `processRecord`.
- `DisruptMode` (`disrupt_mode.dfy`) covers substring mode: `willItChop`, `chopAMR`, and the
  per-candidate `processRecord` loop.

Graphs are immutable values. The scripts' `copy.deepcopy` followed by field assignments becomes a
new value, so the original graph is never changed.

`processRecord` returns what it would hand to `store`, in order, instead of writing files.

Two Python exceptions are modelled as the code behaves:

- **KeyError.** `willItChop` reaches a node without a label. The `except` returns "not
  choppable" for the whole search, even when a later node would match.
- **IndexError.** The suffix date branch takes `split()[-1:][0]` of a sentence without words. The
  error escapes `willItChop` and `processRecord`, so it is an explicit outcome
  (`Verdict.IndexError`, `RecordOutcome.RaisedIndexError`).

Three behaviours follow from the code, and its comments do not say them:

- Substring mode's guard never rejects a chop. The comment says the guard drops
  sentences that are just a named entity, but such a sentence becomes `UNK` and is kept
  (`DisruptGuardKeepsChop`, `LabelOnlySentenceKept`).
- Labels are joined in triple order, not in `:op1`, `:op2` order (`LabelsFollowTripleOrder`).
- Suffix mode's `endswith` test is not bounded by words. In "I met JohnSmith", the label
  "Smith" is chopped, the incomplete sentence becomes "I met", and the guard keeps it
  (`SuffixNotWordBounded`). `SuffixTextReassembles` therefore asks that the label's words be
  the sentence's last words, which this case does not meet.

The completion half is rooted at the chosen node, and it holds that node's `name` or
`date-entity` triple, so the node has a triple leaving it there (`CandidateRootsCompletion`,
`SuffixCompletionRooted`, `DisruptCompletionRooted`). There is one exception: a node whose own
identifier is `name` or `date-entity`. Its entity triple then points back at it and goes to the
incomplete half.

## Model

| member | source | states |
|---|---|---|
| `AmrGraph.CleanUtterance` | chop_AMR.py:16 | The cleaned sentence holds no `.` and no `?`. It has no leading or trailing whitespace, and every character in it comes from the record's sentence. |
| `AmrGraph.ParseOriginal` | chop_AMR.py:12-16 | Returns the cleaned sentence and the record tagged `chop-section = "original"`. Every other metadata key, the top, the triples and the layout data are unchanged. |
| `AmrGraph.CleanUtteranceIdempotent` | disrput_AMR.py:20 | Cleaning an already cleaned sentence changes nothing. |
| `AmrGraph.GetNameInfo` | chop_AMR.py:19-45 | Returns the candidate nodes and the label map. Every label key is a candidate, and its label is its pieces joined by single spaces. |
| `AmrGraph.CollectNameNodes` | chop_AMR.py:25-29 | The first loop collects, in triple order, the source of every triple whose target is `name` or `date-entity`, once per such triple. |
| `AmrGraph.CollectLabels` | chop_AMR.py:32-42 | The second loop builds exactly the label map: candidates with at least one `:op*` or date piece, each mapped to its quote-free pieces in triple order. |
| `AmrGraph.NameNodesSnoc` | chop_AMR.py:25-29 | One more triple appends its source to the candidates exactly when its target is `name` or `date-entity`. |
| `AmrGraph.NameNodesMembers` | disrput_AMR.py:29-33 | A node is a candidate exactly when some triple with that source has target `name` or `date-entity`. |
| `AmrGraph.LabelPartsSnoc` | chop_AMR.py:33-42 | One more triple appends at most one piece, its unquoted target, to a node's label. It does so exactly when the triple leaves that node by an `:op*` or date relation. |
| `AmrGraph.NameNodes` | chop_AMR.py:25-29 | Definition of the candidates: the sources of the triples whose target is `name` or `date-entity`, in triple order, once per triple. Stated by `NameNodesSnoc` and `NameNodesMembers`. |
| `AmrGraph.LabelParts` | chop_AMR.py:21-42 | Definition of a node's label pieces: the unquoted targets of its `:op*`, `:day`, `:month`, `:year` and `:year2` triples, in triple order. Stated by `LabelPartsSnoc`. |
| `AmrGraph.LabelMap` | chop_AMR.py:32-42 | A node has a label exactly when it is a candidate with at least one piece. Its label is those pieces joined by single spaces. |
| `AmrGraph.CollectLabel` | chop_AMR.py:33-42 | One iteration of the second loop, with its create-or-extend branches, turns the label map of the triples seen so far into that of one more triple. |
| `AmrGraph.LabelMapSnoc` | chop_AMR.py:32-42 | How one loop iteration changes the label map. A contributing triple from a candidate extends that candidate's label by a space and the piece, or creates it. Any other triple leaves the map unchanged. |
| `AmrGraph.LabelsFollowTripleOrder` | disrput_AMR.py:36-46 | A name node whose `:op2 "B"` triple comes before its `:op1 "A"` triple gets the label "B A". |
| `AmrGraph.ChopTriplesSnoc` | chop_AMR.py:69-79 | One more triple lands at the end of exactly one half. An inbound triple goes to the incomplete half with target `UNK`. An outbound triple goes to the completion half. Any other triple goes, unchanged, to the incomplete half. |
| `AmrGraph.CompletionTriples` | chop_AMR.py:74-76 | Definition of the completion half: the triples leaving the node that do not point back at it, in order. Stated by `ChopTriplesSnoc` and `ChopTriplesSevered`. |
| `AmrGraph.IncompleteTriples` | chop_AMR.py:69-79 | Definition of the incomplete half: every other triple in order, with a target equal to the node replaced by `UNK`. Stated by `ChopTriplesSnoc` and `ChopTriplesReassemble`. |
| `AmrGraph.ChopTriples` | chop_AMR.py:66-81 | The completion half is the in-order filter of triples leaving the node and not pointing back at it. The incomplete half is the in-order remainder with the node's references severed. The two sizes add up to the input size. |
| `AmrGraph.ChopTriplesReassemble` | disrput_AMR.py:68-83 | When no triple already targets `UNK`, the two halves hold exactly the original triples, each as often as before, once the node is put back in place of `UNK`. |
| `AmrGraph.ChopTriplesSevered` | disrput_AMR.py:73-78 | For a node other than `UNK`, no incomplete triple targets the node. Every completion triple has the node as its source and does not target it. |
| `AmrGraph.CandidateRootsCompletion` | chop_AMR.py:69-79 | A candidate whose identifier is neither `name` nor `date-entity` always has a triple leaving it in its completion half, so that half is never empty and its top is a source in it. |
| `AmrGraph.ChopGraph` | chop_AMR.py:86-106 | Gives the half's triples and empty layout data. Its metadata keys are exactly id, chop-date, chop-section, snt and tok, with the original id, `2022-06-29`, and the sentence as both snt and tok. The completion half is rooted at the node and tagged `completion`. Otherwise the original top is kept with `incomplete`. |
| `AmrGraph.Select` | chop_AMR.py:49-63 | Definition of the search with early returns: the verdict of the first node that stops the loop, or "not choppable" when none does. Stated by `SelectFirstStop` and `SelectSkip`. |
| `AmrGraph.SelectFirstStop` | chop_AMR.py:51-60 | The search's verdict is that of the first node that decides, and every earlier node lets the loop continue. When no node decides, the verdict is "not choppable". |
| `AmrGraph.SelectSkip` | disrput_AMR.py:56-62 | Nodes that let the loop continue do not affect the verdict. |
| `AmrGraph.PassesGuard` | chop_AMR.py:202 | Definition of the guard `snt.replace(" UNK", "") != ''`. Stated by `PassesGuardUnlessEmpty`, `SuffixGuard` and `DisruptGuardKeepsChop`. |
| `AmrGraph.PassesGuardUnlessEmpty` | chop_AMR.py:202 | For a sentence that does not start with whitespace, the guard `replace(" UNK", "") != ''` holds exactly when the sentence is non-empty. |
| `ChopMode.SuffixStep` | chop_AMR.py:53-58 | Definition of one suffix-mode iteration: an unlabelled node stops with "not choppable", an end match stops with the label, a `d` node whose last word starts with its label stops with that word, and otherwise the loop goes on. Stated by `SuffixStepIndexError` and `WillItChop`. |
| `ChopMode.SelectSuffix` | chop_AMR.py:48-63 | Definition of what suffix-mode willItChop returns: the first-stop search over the nodes with the suffix step. Stated by `WillItChop`, `SuffixChopIsFirstMatch`, `SuffixFindsFirstMatch` and `SuffixNoMatch`. |
| `ChopMode.WillItChop` | chop_AMR.py:48-63 | The loop with early returns yields the first-stop verdict. An unlabelled node gives "not choppable". An end match gives the label. A `d` node whose last word starts with its label gives that last word. A `d` node in a sentence with no words gives IndexError. |
| `ChopMode.SuffixChopIsFirstMatch` | chop_AMR.py:51-58 | A chop is made at a labelled node. Every earlier node is labelled and failed both tests: the sentence does not end with its label, and if it starts with `d`, the sentence has words and its last word does not start with the label. The span is the label when the sentence ends with it; otherwise the node starts with `d` and the span is the last word, which starts with the label. |
| `ChopMode.SuffixFindsFirstMatch` | chop_AMR.py:51-58 | Conversely, when every earlier node failed both tests, a labelled node the sentence ends with is chopped at its label. A `d` node that fails the end test, in a sentence whose last word starts with its label, is chopped at that word. |
| `ChopMode.SuffixNotWordBounded` | chop_AMR.py:53 | "I met JohnSmith" is chopped at the label "Smith", leaving "I met", and the guard keeps it. |
| `ChopMode.SuffixDateExample` | chop_AMR.py:55-58 | A date node labelled "31" in "the 31st" is chopped at the last word "31st". |
| `ChopMode.SuffixChopAtEnd` | chop_AMR.py:53-58 | For a sentence that does not end in whitespace, the chosen span is a suffix of the sentence. |
| `ChopMode.SuffixKeyErrorAborts` | chop_AMR.py:61-63 | Reaching an unlabelled node ends the search with "not choppable". |
| `ChopMode.SuffixKeyErrorExample` | chop_AMR.py:53 | An unlabelled first node hides a later node whose label ends the sentence. |
| `ChopMode.SuffixIndexErrorOnBlank` | chop_AMR.py:57 | IndexError happens only for a sentence without words, and a cleaned sentence is then empty. |
| `ChopMode.SuffixStepIndexError` | chop_AMR.py:53-57 | A node raises IndexError only if it is labelled, starts with `d`, its label is not a suffix, and the sentence has no words. |
| `ChopMode.SuffixNoMatch` | chop_AMR.py:59-60 | When every node lets the loop continue, nothing is chopped. |
| `ChopMode.ChoppedUtterance` | chop_AMR.py:113-115 | The incomplete sentence's words are the sentence's words minus as many final words as the label has. It is those words joined by single spaces. It is empty exactly when the label has no words or at least as many words as the sentence. |
| `ChopMode.ChopAMR` | chop_AMR.py:109-119 | The incomplete half has the severed triples, the original top and the shortened sentence. The completion half has the node's triples, the node as top and the span as sentence. Both have the original id and the right chop-section. |
| `ChopMode.SuffixTextReassembles` | chop_AMR.py:113 | When the label's words are the sentence's last words, the incomplete sentence's words followed by the label's words are the sentence's words. |
| `ChopMode.SuffixGuard` | chop_AMR.py:200-202 | The guard keeps a suffix chop exactly when the label has at least one word and fewer words than the sentence, so a sentence that is only the label is dropped. |
| `ChopMode.ChoppedLeavesFront` | chop_AMR.py:113-115 | When the sentence's words are some front words followed by the label's words, the incomplete sentence is those front words joined by spaces. |
| `ChopMode.ChoppedDropsFinalWords` | chop_AMR.py:113-115 | The chop keeps the front words whatever the final words are, as long as there are as many final words as the label has words. |
| `ChopMode.SuffixExample` | chop_AMR.py:9 | A node `n` labelled "John Smith" is chosen for "I met John Smith", with span "John Smith", and the chop leaves "I met". |
| `ChopMode.SuffixCompletionRooted` | chop_AMR.py:85-104 | When the search chops at a node not called `name` or `date-entity`, the completion half has a triple leaving its top. |
| `ChopMode.ProcessRecord` | chop_AMR.py:189-204 | Stores at most one chop per record. It raises IndexError exactly when the search does. It stores a chop exactly when the search chops and the label has at least one word and fewer words than the sentence. What it stores is the original graph and the two halves chopped at the selected node. |
| `DisruptMode.Pad` | disrput_AMR.py:53 | The padded string is the string with one space added on each side. |
| `DisruptMode.SubstringStep` | disrput_AMR.py:56-60 | Definition of one substring-mode iteration: an unlabelled node stops with "not choppable", a label found padded in the padded sentence stops with that label, and otherwise the loop goes on. Stated by `WillItChop` and `SubstringChopIsFirstMatch`. |
| `DisruptMode.SelectSubstring` | disrput_AMR.py:52-65 | Definition of what substring-mode willItChop returns: the first-stop search over the nodes with the padded `find` step. Stated by `WillItChop`, `SubstringChopIsFirstMatch`, `SubstringFindsFirstMatch` and `SubstringNoMatch`. |
| `DisruptMode.WillItChop` | disrput_AMR.py:52-65 | The loop with early returns yields the first-stop verdict. An unlabelled node gives "not choppable". A label found as whole words in the padded sentence is chopped as it is. |
| `DisruptMode.SubstringChopIsFirstMatch` | disrput_AMR.py:56-62 | Never IndexError. A chop is made at a labelled node with its own label, which occurs padded in the padded sentence. Every earlier node has a label that does not occur. |
| `DisruptMode.SubstringFindsFirstMatch` | disrput_AMR.py:56-60 | Conversely, when every earlier node is labelled and its label does not occur, a labelled node whose label occurs padded is chopped at its label. |
| `DisruptMode.SubstringNoMatch` | disrput_AMR.py:61-62 | When every node is labelled and no label occurs, nothing is chopped. |
| `DisruptMode.SubstringKeyErrorAborts` | disrput_AMR.py:63-65 | Reaching an unlabelled node after nodes that do not match ends the search with "not choppable". |
| `DisruptMode.SingleNode` | disrput_AMR.py:203 | On the singleton `[nn]`, the result is a chop with the node's label exactly when that label occurs as whole words. Otherwise it is "not choppable". |
| `DisruptMode.DisruptText` | disrput_AMR.py:116-118 | Definition of the disrupted sentence: the padded sentence with its first padded occurrence of the label replaced by `" UNK "`, then stripped. Stated by `DisruptTextAt`, `DisruptTextWords` and `DisruptTextNotFound`. |
| `DisruptMode.ChopAMR` | disrput_AMR.py:111-122 | The incomplete half has the severed triples, the original top and the disrupted sentence. The completion half has the node's triples, the node as top and the label as sentence. Both have the original id and the right chop-section. |
| `DisruptMode.DisruptTextAt` | disrput_AMR.py:116-118 | The padded sentence is the text before the first occurrence, the label between spaces, and the rest. The disrupted sentence strips the same text before, `UNK` between spaces, and the same rest, so later occurrences are untouched. |
| `DisruptMode.DisruptTextWords` | disrput_AMR.py:116-118 | The disrupted sentence's words are the words before the occurrence, `UNK`, and the words after it. The same split with the label's words in place of `UNK` gives the sentence's words. |
| `DisruptMode.DisruptTextNotFound` | disrput_AMR.py:118 | Where the label does not occur, the sentence is only stripped. |
| `DisruptMode.DisruptGuardKeepsChop` | disrput_AMR.py:208-209 | The guard keeps every substring chop. |
| `DisruptMode.LabelOnlySentenceKept` | disrput_AMR.py:208-209 | A sentence that is only the label becomes `UNK`, and the guard keeps it. |
| `DisruptMode.DisruptOne` | disrput_AMR.py:203-211 | Definition of one loop iteration: the search on `[nn]`, and on a chop that passes the guard, the original graph with its two halves. Stated by `DisruptOneMatches`. |
| `DisruptMode.Disruptions` | disrput_AMR.py:202-211 | Definition of what the loop stores: what each candidate gives, in candidate order. Stated by `DisruptionsSnoc` and `DisruptionsPerMatch`. |
| `DisruptMode.DisruptionsSnoc` | disrput_AMR.py:202-211 | One more candidate appends what it gives at the end of the stored sequence. |
| `DisruptMode.DisruptOneMatches` | disrput_AMR.py:203-211 | A candidate stores one record, the original graph with its two halves, when its label occurs as whole words. Otherwise it stores none. |
| `DisruptMode.DisruptionsPerMatch` | disrput_AMR.py:202-211 | The stored records match the matching candidates one to one and in order. Each is chopped at that candidate from the same unmodified original graph, so k matching candidates give k records. |
| `DisruptMode.TryCandidate` | disrput_AMR.py:203-211 | One loop iteration stores exactly what the candidate gives. |
| `DisruptMode.ChopEachCandidate` | disrput_AMR.py:202-211 | The loop stores, in candidate order, what every candidate gives. |
| `DisruptMode.DisruptCompletionRooted` | disrput_AMR.py:87-106 | Every stored record chopped at a node not called `name` or `date-entity` has a triple leaving its completion half's top. |
| `DisruptMode.ProcessRecord` | disrput_AMR.py:196-211 | Parses, locates candidates and labels, and stores what the per-candidate chops of the cleaned sentence give. |
| `DisruptMode.PearAndOrange` | disrput_AMR.py:10-13 | In "I ate a pear and an orange", both "pear" and "orange" occur as whole words. Disrupting gives "I ate a UNK and an orange" at "pear" and "I ate a pear and an UNK" at "orange". |
| `DisruptMode.TwoMatches` | disrput_AMR.py:202-211 | Two candidates whose labels both occur give exactly two stored records: the first candidate's, then the second's. |
| `DisruptMode.PearAndOrangeStored` | disrput_AMR.py:10-13 | For candidates labelled "pear" and "orange", the loop stores two records. Their incomplete sentences are "I ate a UNK and an orange" and "I ate a pear and an UNK", and their completion sentences are "pear" and "orange". |
| `PyStr.IsSpace` | chop_AMR.py:57 | Definition of Python's `str.isspace()` for one character: the space plus the listed code-point ranges (tab to carriage return, the separators U+1C to U+1F, U+85, U+A0, U+1680, U+2000 to U+200A, U+2028, U+2029, U+202F, U+205F and U+3000). `split()` and `strip()` use exactly this set. |
| `PyStr.LStrip` | chop_AMR.py:16 | The result is a suffix of the input that does not start with whitespace, and everything removed is whitespace. |
| `PyStr.RStrip` | chop_AMR.py:16 | The result is a prefix of the input that does not end with whitespace, and everything removed is whitespace. |
| `PyStr.Strip` | chop_AMR.py:16 | `strip()` gives a string with no whitespace at either end. It is empty exactly when the input is all whitespace. |
| `PyStr.StripOuter` | chop_AMR.py:16 | The input is whitespace, then the stripped string, then whitespace. |
| `PyStr.StripKeepsChars` | disrput_AMR.py:20 | `strip()` brings in no character. |
| `PyStr.StripPadded` | disrput_AMR.py:116-118 | Stripping a string padded with a space on each side is the same as stripping the string. |
| `PyStr.Split` | chop_AMR.py:57 | `split()` gives non-empty words without whitespace. It gives no words exactly when the string is all whitespace. |
| `PyStr.SplitStrip` | chop_AMR.py:115 | `strip()` does not change the words. |
| `PyStr.SplitJoin` | chop_AMR.py:113 | Splitting words joined by single spaces gives the words back. |
| `PyStr.StartsWith` | chop_AMR.py:57 | Definition of `startswith`: the prefix is no longer than the string and equals its front. |
| `PyStr.EndsWith` | chop_AMR.py:53 | Definition of `endswith`: the suffix is no longer than the string and equals its end. It compares characters, not words (see `SuffixNotWordBounded`). |
| `PyStr.Last` | chop_AMR.py:57 | Definition of `xs[-1:][0]` on a non-empty sequence: its last element. |
| `PyStr.LastTokenIsSuffix` | chop_AMR.py:57 | A string that does not end in whitespace ends with its last word. |
| `PyStr.Join` | chop_AMR.py:113 | Definition of `sep.join(ws)`: the words with the separator between each pair. Stated by `JoinSnoc` and `SplitJoin`. |
| `PyStr.JoinSnoc` | chop_AMR.py:35 | Joining one more word appends the separator and the word. |
| `PyStr.DropTail` | chop_AMR.py:113 | `xs[:-k]` keeps a prefix of `|xs| - k` elements. It is empty when k is 0 or k is at least `|xs|`. |
| `PyStr.DropTailThenTail` | chop_AMR.py:113 | `xs[:-k] + xs[-k:]` is `xs` for `0 < k <= |xs|`. |
| `PyStr.Find` | disrput_AMR.py:59 | `find` returns -1 or an index at which the pattern fits inside the string. |
| `PyStr.FindSpec` | disrput_AMR.py:59 | `find` returns -1 exactly when the pattern occurs nowhere. Otherwise it returns the first index where it occurs. |
| `PyStr.FindFirst` | disrput_AMR.py:59 | An occurrence with none before it is what `find` returns. |
| `PyStr.ReplaceFirst` | disrput_AMR.py:118 | Definition of `replace(pat, rep, 1)`: the string unchanged when `find` gives -1, and otherwise the first occurrence replaced. Stated by `ReplaceFirstFound`. |
| `PyStr.ReplaceFirstFound` | disrput_AMR.py:118 | Where the pattern occurs, `replace(pat, rep, 1)` keeps the text before and after the first occurrence and puts `rep` in its place. |
| `PyStr.RemoveChar` | chop_AMR.py:35 | `replace(c, '')` leaves no `c`, and leaves a string without `c` unchanged. |
| `PyStr.RemoveCharKeeps` | chop_AMR.py:16 | `replace(c, '')` keeps every other character that occurs and brings in none. |
| `PyStr.RemoveAll` | chop_AMR.py:202 | `replace(" UNK", "")` empties only an empty string or one that starts with the pattern. |
| `PyStr.RemoveAllRepeat` | chop_AMR.py:202 | Copies of the pattern side by side become empty. |
| `PyStr.RemoveAllEmpty` | chop_AMR.py:202 | Only copies of the pattern side by side become empty. |
| `Seqs.FilterPartition` | chop_AMR.py:69-79 | Filtering by a predicate and by its complement splits a sequence into two parts. Together they hold every element exactly as often as the sequence does. |

## Left out

- `penman.decode` and `penman.encode` are not modelled. Records come in decoded (a `Graph` value). The `LayoutError` check in `store`, which drops a chop whose halves do not re-serialize, is a foreign serializer's verdict and is not modelled. `processRecord` returns what it hands to `store`.
- `store` and `display` are not modelled: they append files whose paths come from `sys.argv`, and they print.
- `processFile` is not modelled: it reads the input file named by `sys.argv`, splits it into records, drives the `tqdm` progress bar, and exits on a missing argument.
- `copy.deepcopy` is not modelled. Graphs are values, so no half can alias the original.
- `AmrGraph.ParseOriginal`: requires `snt` in the metadata. A record without it makes the script raise an uncaught KeyError, which is not modelled.
- `ChopMode.ProcessRecord`: requires `snt` and `id` in the metadata. Without `snt` the script raises KeyError in `parseOriginal`. Without `id` it raises KeyError in `chopGraph`, but only once a chop is chosen. The requires also excludes records without `id` that give no chop, which the script processes without error and stores nothing for.
- `DisruptMode.ProcessRecord`: requires `snt` and `id` in the metadata. Without `snt` the script raises KeyError in `parseOriginal`. Without `id` it raises KeyError in `chopGraph` at the first matching candidate. The requires also excludes records without `id` in which no candidate matches, which the script processes without error.
- `AmrGraph.ChopGraph`: requires `id` in the metadata. Without it the script raises an uncaught KeyError, which is not modelled. The `None` that `chopAMR` passes as the node of the incomplete half is written as `""`. That argument is never read when the flag is false.
- `AmrGraph.ChopTriplesReassemble`: requires that no triple already targets `UNK`. Such a triple cannot be told apart from a severed one once the halves are built.
- `ChopMode.SuffixTextReassembles`: requires that the label's words be the sentence's last words. This excludes a label that only ends the last word, such as "Smith" in "I met JohnSmith", where the chop removes the whole word (`SuffixNotWordBounded`).
- Chopping at the graph's top node is not excluded: the scripts have no such guard. The incomplete half then keeps a top that may no longer be the source of any triple.
- Strings are sequences of characters. `isspace`, `split()` and `strip()` use Python's whitespace set. No Unicode normalisation or encoding is involved, as none is in the scripts.
