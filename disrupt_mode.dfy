/** The substring policy of disrput_AMR.py: a name or date is chopped wherever its label occurs
    in the sentence as whole words, the label's first occurrence is replaced by `UNK`, and every
    candidate node of a record is tried on its own, so one record can give several chops. */
module DisruptMode {
  import opened PyStr
  import opened Seqs
  import opened AmrGraph

  /** The sentence or label with one space on each side, so that only whole words match. */
  function Pad(s: string): (p: string)
    ensures |p| == |s| + 2 && p[0] == ' ' && p[|p| - 1] == ' ' && p[1..|p| - 1] == s
  {
    " " + s + " "
  }

  // ---------------------------------------------------------------- willItChop

  /** How willItChop's loop treats node `n`: a node without a label raises KeyError, which the
      `except` turns into "not choppable"; a label found as whole words in the padded sentence
      is chopped as it is. */
  function SubstringStep(utt: string, labels: map<string, string>, n: string): Step
  {
    if n !in labels then Stop(NoChop)
    else if Find(Pad(utt), Pad(labels[n])) != -1 then Stop(Chop(n, labels[n]))
    else Continue
  }

  function SubstringTest(utt: string, labels: map<string, string>): string -> Step
  {
    n => SubstringStep(utt, labels, n)
  }

  /** The outcome of willItChop in substring mode. */
  function SelectSubstring(utt: string, nodes: seq<string>, labels: map<string, string>): Verdict
  {
    Select(SubstringTest(utt, labels), nodes)
  }

  /** willItChop: test the nodes in order and leave at the first one that decides. */
  method WillItChop(utt: string, nodes: seq<string>, labels: map<string, string>) returns (v: Verdict)
    ensures v == SelectSubstring(utt, nodes, labels)
  {
    var prepUtt := " " + utt + " ";
    var i := 0;
    while i < |nodes|
      invariant 0 <= i <= |nodes|
      invariant SelectSubstring(utt, nodes, labels) == Select(SubstringTest(utt, labels), nodes[i..])
    {
      var node := nodes[i];
      assert nodes[i..][0] == node && nodes[i..][1..] == nodes[i + 1..];
      if node !in labels {
        return NoChop;
      }
      if Find(prepUtt, " " + labels[node] + " ") != -1 {
        return Chop(node, labels[node]);
      }
      i := i + 1;
    }
    return NoChop;
  }

  /** Substring mode never raises IndexError, and a chop is made at a labelled node with that
      node's own label, which occurs as whole words in the sentence; every node before it has a
      label that does not. */
  lemma SubstringChopIsFirstMatch(utt: string, nodes: seq<string>, labels: map<string, string>)
    ensures SelectSubstring(utt, nodes, labels) != IndexError
    ensures var v := SelectSubstring(utt, nodes, labels);
            v.Chop? ==>
              exists i :: 0 <= i < |nodes| && nodes[i] == v.node && v.node in labels
                          && v.span == labels[v.node] && Find(Pad(utt), Pad(v.span)) != -1
                          && (forall j :: 0 <= j < i ==>
                                nodes[j] in labels && Find(Pad(utt), Pad(labels[nodes[j]])) == -1)
  {
    var i := SelectFirstStop(SubstringTest(utt, labels), nodes);
    forall j | 0 <= j < i
      ensures nodes[j] in labels && Find(Pad(utt), Pad(labels[nodes[j]])) == -1
    {
      assert SubstringTest(utt, labels)(nodes[j]) == Continue;
    }
    if i < |nodes| {
      assert SubstringTest(utt, labels)(nodes[i]).Stop?;
    }
  }

  /** Conversely, the first node whose label occurs as whole words, after nodes that all have
      labels that do not, is the one chopped, at its own label. */
  lemma SubstringFindsFirstMatch(utt: string, nodes: seq<string>, labels: map<string, string>, i: nat)
    requires i < |nodes| && nodes[i] in labels && Find(Pad(utt), Pad(labels[nodes[i]])) != -1
    requires forall j :: 0 <= j < i ==> nodes[j] in labels && Find(Pad(utt), Pad(labels[nodes[j]])) == -1
    ensures SelectSubstring(utt, nodes, labels) == Chop(nodes[i], labels[nodes[i]])
  {
    var test := SubstringTest(utt, labels);
    forall j | 0 <= j < i ensures test(nodes[j]) == Continue {
      assert nodes[j] in labels;
    }
    SelectSkip(test, nodes, i);
    assert nodes[i..][0] == nodes[i];
  }

  /** When every node has a label and none occurs as whole words, nothing is chopped. */
  lemma SubstringNoMatch(utt: string, nodes: seq<string>, labels: map<string, string>)
    requires forall j :: 0 <= j < |nodes| ==> nodes[j] in labels && Find(Pad(utt), Pad(labels[nodes[j]])) == -1
    ensures SelectSubstring(utt, nodes, labels) == NoChop
  {
    var test := SubstringTest(utt, labels);
    forall j | 0 <= j < |nodes| ensures test(nodes[j]) == Continue {
      assert nodes[j] in labels;
    }
    SelectSkip(test, nodes, |nodes|);
  }

  /** A node without a label ends the search with "not choppable", even when a later node's
      label occurs. */
  lemma SubstringKeyErrorAborts(utt: string, nodes: seq<string>, labels: map<string, string>, i: nat)
    requires i < |nodes| && nodes[i] !in labels
    requires forall j :: 0 <= j < i ==> nodes[j] in labels && Find(Pad(utt), Pad(labels[nodes[j]])) == -1
    ensures SelectSubstring(utt, nodes, labels) == NoChop
  {
    var test := SubstringTest(utt, labels);
    forall j | 0 <= j < i ensures test(nodes[j]) == Continue {
      assert nodes[j] in labels;
    }
    SelectSkip(test, nodes, i);
    assert nodes[i..][0] == nodes[i];
  }

  /** A node that occurs as whole words in the sentence: the test processRecord applies to
      each candidate in turn. */
  function Matches(utt: string, labels: map<string, string>): string -> bool
  {
    n => n in labels && Find(Pad(utt), Pad(labels[n])) != -1
  }

  /** willItChop on a single node: chopped exactly when the node's label occurs as whole words,
      and "not choppable" otherwise, including when the node has no label. */
  lemma SingleNode(utt: string, n: string, labels: map<string, string>)
    ensures SelectSubstring(utt, [n], labels)
            == if Matches(utt, labels)(n) then Chop(n, labels[n]) else NoChop
  {
    var test := SubstringTest(utt, labels);
    assert [n][0] == n && [n][1..] == [];
    assert Select(test, []) == NoChop;
    assert test(n) == SubstringStep(utt, labels, n);
  }

  // ---------------------------------------------------------------- chopAMR

  /** The incomplete sentence: the first whole-word occurrence of the label replaced by `UNK`,
      the padding stripped off again. */
  function DisruptText(utt: string, span: string): string
  {
    Strip(ReplaceFirst(Pad(utt), Pad(span), " UNK "))
  }

  /** chopAMR: the incomplete half (severed triples, the disrupted sentence, the original top)
      and the completion half (the node's own triples, the label, rooted at the node). */
  function ChopAMR(utt: string, graph: Graph, node: string, span: string): (halves: (Graph, Graph))
    requires "id" in graph.metadata
    ensures halves.0.triples == IncompleteTriples(graph.triples, node)
    ensures halves.1.triples == CompletionTriples(graph.triples, node)
    ensures halves.0.top == graph.top && halves.1.top == node
    ensures halves.0.metadata.Keys == halves.1.metadata.Keys == {"id", "chop-date", "chop-section", "snt", "tok"}
    ensures halves.0.metadata["chop-section"] == "incomplete" && halves.1.metadata["chop-section"] == "completion"
    ensures halves.0.metadata["id"] == graph.metadata["id"] == halves.1.metadata["id"]
    ensures halves.0.metadata["snt"] == DisruptText(utt, span)
    ensures halves.1.metadata["snt"] == span
  {
    var triplesHalf1 := IncompleteTriples(graph.triples, node);
    var triplesHalf2 := CompletionTriples(graph.triples, node);
    var choppedUtt := Strip(ReplaceFirst(" " + utt + " ", " " + span + " ", " UNK "));
    (ChopGraph(graph, triplesHalf1, choppedUtt, false, ""), ChopGraph(graph, triplesHalf2, span, true, node))
  }

  /** The words of a padded string are the words of the string. */
  lemma SplitPad(s: string)
    ensures Split(Pad(s)) == Split(s)
  {
    assert Pad(s) == [' '] + (s + [' '] + []);
    SplitLeadingSpace(' ', s + [' '] + []);
    SplitAround(s, ' ', []);
    assert Split(s) + [] == Split(s);
  }

  /** `UNK` is a single word. */
  lemma SplitUnk()
    ensures Split(Unk) == [Unk]
  {
    AlphanumericToken(Unk);
    SplitCons(Unk, "");
    assert Unk + "" == Unk;
  }

  /** The words of `a`, a space, `w`, a space and `b`: those of `a`, `w` and `b` in turn. */
  lemma SplitBetweenSpaces(a: string, w: string, b: string)
    ensures Split(a + " " + w + " " + b) == Split(a) + Split(w) + Split(b)
  {
    assert a + " " + w + " " + b == a + [' '] + (w + [' '] + b);
    SplitAround(a, ' ', w + [' '] + b);
    SplitAround(w, ' ', b);
  }

  /** The replacement text is the padded placeholder. */
  lemma UnkPadded()
    ensures " UNK " == Pad(Unk)
  {
  }

  /** Where the label occurs as whole words: the padded sentence is what comes before the
      occurrence, the padded label and what comes after it; the replacement puts the padded
      `UNK` between the same two parts. */
  lemma ReplacedAt(utt: string, span: string)
    requires Find(Pad(utt), Pad(span)) != -1
    ensures var p, i := Pad(utt), Find(Pad(utt), Pad(span));
            var a, b := p[..i], p[i + |span| + 2..];
            && p == a + Pad(span) + b
            && ReplaceFirst(p, Pad(span), " UNK ") == a + Pad(Unk) + b
  {
    ReplaceFirstFound(Pad(utt), Pad(span), " UNK ");
    UnkPadded();
  }

  /** Where the label occurs as whole words: the padded sentence is what comes before the
      occurrence, a space, the label, a space and what comes after it; the replacement puts
      `UNK` between the same two parts. */
  lemma DisruptTextAt(utt: string, span: string)
    requires Find(Pad(utt), Pad(span)) != -1
    ensures var p, i := Pad(utt), Find(Pad(utt), Pad(span));
            var a, b := p[..i], p[i + |span| + 2..];
            && p == a + " " + span + " " + b
            && DisruptText(utt, span) == Strip(a + " " + Unk + " " + b)
  {
    var p, i := Pad(utt), Find(Pad(utt), Pad(span));
    var a, b := p[..i], p[i + |span| + 2..];
    ReplacedAt(utt, span);
    Regroup(a, " ", span, " ", b);
    Regroup(a, " ", Unk, " ", b);
  }

  /** Where the label occurs as whole words, the disrupted sentence's words are the words
      before it, `UNK`, and the words after it; putting the label's words back in place of
      `UNK` gives the sentence's words. */
  lemma DisruptTextWords(utt: string, span: string)
    requires Find(Pad(utt), Pad(span)) != -1
    ensures var p, i := Pad(utt), Find(Pad(utt), Pad(span));
            var before, after := Split(p[..i]), Split(p[i + |span| + 2..]);
            && Split(DisruptText(utt, span)) == before + [Unk] + after
            && Split(utt) == before + Split(span) + after
  {
    var p, i := Pad(utt), Find(Pad(utt), Pad(span));
    var a, b := p[..i], p[i + |span| + 2..];
    DisruptTextAt(utt, span);
    assert Split(DisruptText(utt, span)) == Split(a) + [Unk] + Split(b) by {
      SplitStrip(a + " " + Unk + " " + b);
      SplitBetweenSpaces(a, Unk, b);
      SplitUnk();
    }
    assert Split(utt) == Split(a) + Split(span) + Split(b) by {
      SplitBetweenSpaces(a, span, b);
      SplitPad(utt);
    }
  }

  /** Where the label does not occur, nothing is replaced and the sentence is only stripped. */
  lemma DisruptTextNotFound(utt: string, span: string)
    requires Find(Pad(utt), Pad(span)) == -1
    ensures DisruptText(utt, span) == Strip(utt)
  {
    StripPadded(utt);
  }

  // ---------------------------------------------------------------- the guard

  /** The emptiness guard never rejects a substring chop: the disrupted sentence always holds
      `UNK`, so deleting every " UNK" cannot leave nothing. */
  lemma DisruptGuardKeepsChop(utt: string, span: string)
    requires Find(Pad(utt), Pad(span)) != -1
    ensures PassesGuard(DisruptText(utt, span))
  {
    var chopped := DisruptText(utt, span);
    DisruptTextWords(utt, span);
    assert Split(chopped) != [];
    assert chopped != [];
    PassesGuardUnlessEmpty(chopped);
  }

  /** A sentence that is nothing but the label becomes `UNK`, and the guard keeps it. */
  lemma LabelOnlySentenceKept(utt: string)
    ensures DisruptText(utt, utt) == Unk
    ensures PassesGuard(DisruptText(utt, utt))
  {
    var p := Pad(utt);
    assert ReplaceFirst(p, p, " UNK ") == " " + Unk + " " by {
      FindFirst(p, p, 0);
      assert p[|p|..] == [];
    }
    assert Strip(" " + Unk + " ") == Unk by {
      StripPadded(Unk);
      AlphanumericNotSpace(Unk[0]);
      AlphanumericNotSpace(Unk[2]);
      StripUnchanged(Unk);
    }
    PassesGuardUnlessEmpty(Unk);
  }

  // ---------------------------------------------------------------- processRecord

  /** What processRecord stores for candidate `n`: when willItChop on `[n]` chops, the original
      graph and both halves, provided the incomplete sentence passes the guard. */
  function DisruptOne(utt: string, original: Graph, n: string, labels: map<string, string>): seq<Emitted>
    requires "id" in original.metadata
  {
    var v := SelectSubstring(utt, [n], labels);
    if v.Chop? then
      var halves := ChopAMR(utt, original, v.node, v.span);
      if PassesGuard(halves.0.metadata["snt"]) then [Emitted(original, halves.0, halves.1)] else []
    else []
  }

  /** Everything processRecord stores for the candidates `nodes`, in candidate order. */
  function Disruptions(utt: string, original: Graph, nodes: seq<string>, labels: map<string, string>): seq<Emitted>
    requires "id" in original.metadata
  {
    if nodes == [] then []
    else Disruptions(utt, original, nodes[..|nodes| - 1], labels)
         + DisruptOne(utt, original, nodes[|nodes| - 1], labels)
  }

  /** One more candidate adds what it gives at the end. */
  lemma DisruptionsSnoc(utt: string, original: Graph, nodes: seq<string>, n: string, labels: map<string, string>)
    requires "id" in original.metadata
    ensures Disruptions(utt, original, nodes + [n], labels)
            == Disruptions(utt, original, nodes, labels) + DisruptOne(utt, original, n, labels)
  {
    assert (nodes + [n])[..|nodes|] == nodes;
  }

  /** The record stored for a matching candidate. */
  function EmitFor(utt: string, original: Graph, n: string, labels: map<string, string>): Emitted
    requires "id" in original.metadata && n in labels
  {
    var halves := ChopAMR(utt, original, n, labels[n]);
    Emitted(original, halves.0, halves.1)
  }

  /** One candidate gives one stored record when its label occurs as whole words, and none
      otherwise. */
  lemma DisruptOneMatches(utt: string, original: Graph, n: string, labels: map<string, string>)
    requires "id" in original.metadata
    ensures DisruptOne(utt, original, n, labels)
            == if Matches(utt, labels)(n) then [EmitFor(utt, original, n, labels)] else []
  {
    SingleNode(utt, n, labels);
    if Matches(utt, labels)(n) {
      DisruptGuardKeepsChop(utt, labels[n]);
    }
  }

  /** `out` holds, in order, the record stored for each node of `hits`. */
  predicate EmitsFor(out: seq<Emitted>, hits: seq<string>, utt: string, original: Graph, labels: map<string, string>)
    requires "id" in original.metadata
  {
    && |out| == |hits|
    && forall k :: 0 <= k < |out| ==> hits[k] in labels && out[k] == EmitFor(utt, original, hits[k], labels)
  }

  /** One more matching node and its record keep the correspondence. */
  lemma EmitsForSnoc(out: seq<Emitted>, hits: seq<string>, utt: string, original: Graph, labels: map<string, string>, n: string)
    requires "id" in original.metadata && n in labels
    requires EmitsFor(out, hits, utt, original, labels)
    ensures EmitsFor(out + [EmitFor(utt, original, n, labels)], hits + [n], utt, original, labels)
  {
    var out', hits' := out + [EmitFor(utt, original, n, labels)], hits + [n];
    forall k | 0 <= k < |out'|
      ensures hits'[k] in labels && out'[k] == EmitFor(utt, original, hits'[k], labels)
    {
      if k < |out| {
        assert out'[k] == out[k] && hits'[k] == hits[k];
      }
    }
  }

  /** processRecord stores exactly one record per matching candidate, in candidate order, each
      chopped at that candidate from the same original graph. */
  lemma {:induction false} DisruptionsPerMatch(utt: string, original: Graph, nodes: seq<string>, labels: map<string, string>)
    requires "id" in original.metadata
    ensures EmitsFor(Disruptions(utt, original, nodes, labels), Filter(Matches(utt, labels), nodes), utt, original, labels)
  {
    if nodes != [] {
      var init, n := nodes[..|nodes| - 1], nodes[|nodes| - 1];
      assert nodes == init + [n];
      DisruptionsPerMatch(utt, original, init, labels);
      DisruptOneMatches(utt, original, n, labels);
      DisruptionsSnoc(utt, original, init, n, labels);
      FilterSnoc(Matches(utt, labels), init, n);
      if Matches(utt, labels)(n) {
        EmitsForSnoc(Disruptions(utt, original, init, labels), Filter(Matches(utt, labels), init), utt, original, labels, n);
      }
    }
  }

  /** Every record processRecord stores has a completion half with a triple leaving its top,
      unless the chosen node is itself called `name` or `date-entity`. */
  lemma DisruptCompletionRooted(record: Graph)
    requires "snt" in record.metadata && "id" in record.metadata
    ensures var utt, original := ParseOriginal(record).0, ParseOriginal(record).1;
            var nodes := NameNodes(record.triples);
            var out := Disruptions(utt, original, nodes, LabelMap(record.triples, nodes));
            forall k :: 0 <= k < |out| && out[k].completion.top != "name" && out[k].completion.top != "date-entity"
                        ==> exists t :: t in out[k].completion.triples && t.source == out[k].completion.top
  {
    var utt, original := ParseOriginal(record).0, ParseOriginal(record).1;
    var nodes := NameNodes(record.triples);
    var labels := LabelMap(record.triples, nodes);
    var out := Disruptions(utt, original, nodes, labels);
    var hits := Filter(Matches(utt, labels), nodes);
    DisruptionsPerMatch(utt, original, nodes, labels);
    FilterMembers(Matches(utt, labels), nodes);
    forall k | 0 <= k < |out| && out[k].completion.top != "name" && out[k].completion.top != "date-entity"
      ensures exists t :: t in out[k].completion.triples && t.source == out[k].completion.top
    {
      assert hits[k] in nodes && out[k] == EmitFor(utt, original, hits[k], labels);
      CandidateRootsCompletion(record.triples, hits[k]);
    }
  }

  /** processRecord minus decoding and storing: parse, locate, then try every candidate on its
      own, chop where its label occurs, and keep each chop whose incomplete sentence passes the
      guard. */
  method ProcessRecord(record: Graph) returns (emitted: seq<Emitted>)
    requires "snt" in record.metadata && "id" in record.metadata
    ensures var utt, original := ParseOriginal(record).0, ParseOriginal(record).1;
            var nodes := NameNodes(record.triples);
            emitted == Disruptions(utt, original, nodes, LabelMap(record.triples, nodes))
  {
    var (utterance, originalGraph) := ParseOriginal(record);
    var nameNodes, nameLabels := GetNameInfo(originalGraph.triples);
    emitted := ChopEachCandidate(utterance, originalGraph, nameNodes, nameLabels);
  }

  /** One iteration of processRecord's loop: willItChop on `[nn]` alone; on a chop, the halves
      are stored unless the guard rejects the incomplete sentence. */
  method TryCandidate(utterance: string, originalGraph: Graph, nn: string, nameLabels: map<string, string>)
      returns (stored: seq<Emitted>)
    requires "id" in originalGraph.metadata
    ensures stored == DisruptOne(utterance, originalGraph, nn, nameLabels)
  {
    stored := [];
    var verdict := WillItChop(utterance, [nn], nameLabels);
    if verdict.Chop? {
      var halves := ChopAMR(utterance, originalGraph, verdict.node, verdict.span);
      var gh1, gh2 := halves.0, halves.1;
      assert "snt" in gh1.metadata;
      if RemoveAll(gh1.metadata["snt"], " UNK") != "" {
        stored := [Emitted(originalGraph, gh1, gh2)];
      }
      assert stored == (if PassesGuard(halves.0.metadata["snt"]) then [Emitted(originalGraph, halves.0, halves.1)] else []);
    }
  }

  /** processRecord's loop: willItChop on each candidate alone, then chop and keep the halves
      when the guard lets them through. */
  method ChopEachCandidate(utterance: string, originalGraph: Graph, nameNodes: seq<string>,
                           nameLabels: map<string, string>) returns (emitted: seq<Emitted>)
    requires "id" in originalGraph.metadata
    ensures emitted == Disruptions(utterance, originalGraph, nameNodes, nameLabels)
  {
    emitted := [];
    var i := 0;
    while i < |nameNodes|
      invariant 0 <= i <= |nameNodes|
      invariant emitted == Disruptions(utterance, originalGraph, nameNodes[..i], nameLabels)
    {
      var nn := nameNodes[i];
      var stored := TryCandidate(utterance, originalGraph, nn, nameLabels);
      emitted := emitted + stored;
      assert nameNodes[..i + 1] == nameNodes[..i] + [nn];
      DisruptionsSnoc(utterance, originalGraph, nameNodes[..i], nn, nameLabels);
      i := i + 1;
    }
    assert nameNodes[..i] == nameNodes;
  }

  // ---------------------------------------------------------------- the documented example

  const Sentence := "I ate a pear and an orange"

  /** A string whose first and last characters are letters is left alone by `strip()`, padded or not. */
  lemma StripLetters(s: string)
    requires |s| >= 2 && '0' <= s[0] <= 'z' && '0' <= s[|s| - 1] <= 'z'
    ensures Strip(" " + s + " ") == s
  {
    AlphanumericNotSpace(s[0]);
    AlphanumericNotSpace(s[|s| - 1]);
    StripPadded(s);
    StripUnchanged(s);
  }

  /** Chopping the pear: " pear " first occurs right after " I ate a". */
  lemma ChopPear()
    ensures DisruptText(Sentence, "pear") == "I ate a UNK and an orange"
  {
    var pre, post := " I ate a", "and an orange ";
    PearPieces();
    FindAfter(pre, Pad("pear"), post);
    assert ReplaceFirst(Pad(Sentence), Pad("pear"), " UNK ") == pre + " UNK " + post;
    PearReplaced();
    StripLetters("I ate a UNK and an orange");
  }

  lemma PearFound()
    ensures Find(Pad(Sentence), Pad("pear")) != -1
  {
    PearPieces();
    FindAfter(" I ate a", Pad("pear"), "and an orange ");
  }

  lemma PearPieces()
    ensures Pad(Sentence) == " I ate a" + Pad("pear") + "and an orange "
    ensures 'p' !in " I ate a"
  {
    assert Sentence == "I ate a" + " pear " + "and an orange";
  }

  lemma PearReplaced()
    ensures " I ate a" + " UNK " + "and an orange " == " " + "I ate a UNK and an orange" + " "
  {
  }

  /** Chopping the orange: " orange " first occurs right after " I ate a pear and an". */
  lemma ChopOrange()
    ensures DisruptText(Sentence, "orange") == "I ate a pear and an UNK"
  {
    var pre := " I ate a pear and an";
    OrangePieces();
    FindAfter(pre, Pad("orange"), "");
    assert ReplaceFirst(Pad(Sentence), Pad("orange"), " UNK ") == pre + " UNK " + "";
    OrangeReplaced();
    StripLetters("I ate a pear and an UNK");
  }

  lemma OrangeFound()
    ensures Find(Pad(Sentence), Pad("orange")) != -1
  {
    OrangePieces();
    FindAfter(" I ate a pear and an", Pad("orange"), "");
  }

  lemma OrangePieces()
    ensures Pad(Sentence) == " I ate a pear and an" + Pad("orange") + ""
    ensures 'o' !in " I ate a pear and an"
  {
    assert Sentence == "I ate a pear and an" + " orange";
  }

  lemma OrangeReplaced()
    ensures " I ate a pear and an" + " UNK " + "" == " " + "I ate a pear and an UNK" + " "
  {
  }

  /** "I ate a pear and an orange" gives two chops: "I ate a UNK and an orange" at the pear and
      "I ate a pear and an UNK" at the orange. Both labels occur as whole words. */
  lemma PearAndOrange()
    ensures var labels := map["p" := "pear", "o" := "orange"];
            Matches(Sentence, labels)("p") && Matches(Sentence, labels)("o")
    ensures DisruptText(Sentence, "pear") == "I ate a UNK and an orange"
    ensures DisruptText(Sentence, "orange") == "I ate a pear and an UNK"
  {
    var labels := map["p" := "pear", "o" := "orange"];
    PearFound();
    OrangeFound();
    MatchesFound(Sentence, labels, "p", "pear");
    MatchesFound(Sentence, labels, "o", "orange");
    ChopPear();
    ChopOrange();
  }

  lemma MatchesFound(utt: string, labels: map<string, string>, n: string, name: string)
    requires n in labels && labels[n] == name && Find(Pad(utt), Pad(name)) != -1
    ensures Matches(utt, labels)(n)
  {
  }

  /** Two matching candidates give two stored records, in candidate order. */
  lemma TwoMatches(utt: string, original: Graph, p: string, o: string, labels: map<string, string>)
    requires "id" in original.metadata
    requires Matches(utt, labels)(p) && Matches(utt, labels)(o)
    ensures Disruptions(utt, original, [p, o], labels)
            == [EmitFor(utt, original, p, labels), EmitFor(utt, original, o, labels)]
  {
    FilterBoth(Matches(utt, labels), p, o);
    DisruptionsPerMatch(utt, original, [p, o], labels);
    EmitsForPair(Disruptions(utt, original, [p, o], labels), p, o, utt, original, labels);
  }

  /** Records for a pair of nodes are the pair of their records. */
  lemma EmitsForPair(out: seq<Emitted>, p: string, o: string, utt: string, original: Graph, labels: map<string, string>)
    requires "id" in original.metadata
    requires EmitsFor(out, [p, o], utt, original, labels)
    ensures p in labels && o in labels
    ensures out == [EmitFor(utt, original, p, labels), EmitFor(utt, original, o, labels)]
  {
    var hits := [p, o];
    assert hits[0] == p && hits[1] == o;
    var a, b := EmitFor(utt, original, p, labels), EmitFor(utt, original, o, labels);
    assert out[0] == a && out[1] == b;
    PairOf(out, a, b);
  }

  lemma PairOf<T>(s: seq<T>, a: T, b: T)
    requires |s| == 2 && s[0] == a && s[1] == b
    ensures s == [a, b]
  {
  }

  /** Both elements kept keeps the pair. */
  lemma FilterBoth(m: string -> bool, p: string, o: string)
    requires m(p) && m(o)
    ensures Filter(m, [p, o]) == [p, o]
  {
    assert [p, o] == [p] + [o];
    FilterSnoc(m, [], p);
    assert [] + [p] == [p];
    FilterSnoc(m, [p], o);
  }

  /** processRecord on a graph whose candidates `p` and `o` are labelled "pear" and "orange"
      stores two records for "I ate a pear and an orange": the pear chop, then the orange chop. */
  lemma PearAndOrangeStored(original: Graph)
    requires "id" in original.metadata
    ensures var labels := map["p" := "pear", "o" := "orange"];
            var out := Disruptions(Sentence, original, ["p", "o"], labels);
            && |out| == 2
            && out[0] == EmitFor(Sentence, original, "p", labels)
            && out[1] == EmitFor(Sentence, original, "o", labels)
            && out[0].incomplete.metadata["snt"] == "I ate a UNK and an orange"
            && out[0].completion.metadata["snt"] == "pear"
            && out[1].incomplete.metadata["snt"] == "I ate a pear and an UNK"
            && out[1].completion.metadata["snt"] == "orange"
  {
    PearAndOrange();
    TwoMatches(Sentence, original, "p", "o", map["p" := "pear", "o" := "orange"]);
  }
}
