/** The suffix policy of chop_AMR.py: a name or date is chopped only where the sentence ends
    with it, the incomplete sentence is the sentence minus that many final words, and at most
    one chop is made per record. */
module ChopMode {
  import opened PyStr
  import opened Seqs
  import opened AmrGraph

  // ---------------------------------------------------------------- willItChop

  /** How willItChop's loop treats node `n`: a node without a label raises KeyError, which the
      `except` turns into "not choppable" for the whole search; a label at the very end of the
      sentence is chopped as it is; a node whose name starts with `d` is chopped at the last
      word when that word starts with the label, and raises IndexError when the sentence has
      no words at all. */
  function SuffixStep(utt: string, labels: map<string, string>, n: string): Step
  {
    if n !in labels then Stop(NoChop)
    else if EndsWith(utt, labels[n]) then Stop(Chop(n, labels[n]))
    else if StartsWith(n, "d") then
      var words := Split(utt);
      if words == [] then Stop(IndexError)
      else if StartsWith(Last(words), labels[n]) then Stop(Chop(n, Last(words)))
      else Continue
    else Continue
  }

  function SuffixTest(utt: string, labels: map<string, string>): string -> Step
  {
    n => SuffixStep(utt, labels, n)
  }

  /** The outcome of willItChop in suffix mode. */
  function SelectSuffix(utt: string, nodes: seq<string>, labels: map<string, string>): Verdict
  {
    Select(SuffixTest(utt, labels), nodes)
  }

  /** willItChop: test the nodes in order and leave at the first one that decides. */
  method WillItChop(utt: string, nodes: seq<string>, labels: map<string, string>) returns (v: Verdict)
    ensures v == SelectSuffix(utt, nodes, labels)
  {
    var i := 0;
    while i < |nodes|
      invariant 0 <= i <= |nodes|
      invariant SelectSuffix(utt, nodes, labels) == Select(SuffixTest(utt, labels), nodes[i..])
    {
      var node := nodes[i];
      assert nodes[i..][0] == node && nodes[i..][1..] == nodes[i + 1..];
      if node !in labels {
        return NoChop;
      }
      if EndsWith(utt, labels[node]) {
        return Chop(node, labels[node]);
      } else if StartsWith(node, "d") {
        var words := Split(utt);
        if words == [] {
          return IndexError;
        }
        if StartsWith(words[|words| - 1], labels[node]) {
          return Chop(node, words[|words| - 1]);
        }
      }
      i := i + 1;
    }
    return NoChop;
  }

  /** Node `n` is labelled and passed over: its label is not a suffix of the sentence and, when
      `n` is a date-like node, the sentence has a last word that does not start with the label. */
  predicate Passed(utt: string, labels: map<string, string>, n: string)
  {
    && n in labels
    && !EndsWith(utt, labels[n])
    && (StartsWith(n, "d") ==> Split(utt) != [] && !StartsWith(Last(Split(utt)), labels[n]))
  }

  /** A chop is made at a labelled node, its span starts with that node's label, and the nodes
      before the node's position all have labels and were passed over by both tests. */
  lemma SuffixChopIsFirstMatch(utt: string, nodes: seq<string>, labels: map<string, string>)
    requires SelectSuffix(utt, nodes, labels).Chop?
    ensures var v := SelectSuffix(utt, nodes, labels);
            exists i :: 0 <= i < |nodes| && nodes[i] == v.node && v.node in labels
                        && (forall j :: 0 <= j < i ==> Passed(utt, labels, nodes[j]))
                        && (EndsWith(utt, labels[v.node]) ==> v.span == labels[v.node])
                        && (!EndsWith(utt, labels[v.node]) ==>
                              StartsWith(v.node, "d") && Split(utt) != [] && v.span == Last(Split(utt))
                              && StartsWith(v.span, labels[v.node]))
  {
    var i := SelectFirstStop(SuffixTest(utt, labels), nodes);
    forall j | 0 <= j < i ensures Passed(utt, labels, nodes[j]) {
      assert SuffixTest(utt, labels)(nodes[j]) == Continue;
    }
    assert SuffixTest(utt, labels)(nodes[i]).Stop?;
  }

  /** Conversely, the first node that matches after nodes that were all passed over is the one
      chopped: at its label when the sentence ends with it, else at the last word when it is a
      date-like node whose label starts that word. */
  lemma SuffixFindsFirstMatch(utt: string, nodes: seq<string>, labels: map<string, string>, i: nat)
    requires i < |nodes| && nodes[i] in labels
    requires forall j :: 0 <= j < i ==> Passed(utt, labels, nodes[j])
    ensures EndsWith(utt, labels[nodes[i]]) ==> SelectSuffix(utt, nodes, labels) == Chop(nodes[i], labels[nodes[i]])
    ensures !EndsWith(utt, labels[nodes[i]]) && StartsWith(nodes[i], "d") && Split(utt) != []
            && StartsWith(Last(Split(utt)), labels[nodes[i]])
            ==> SelectSuffix(utt, nodes, labels) == Chop(nodes[i], Last(Split(utt)))
  {
    var test := SuffixTest(utt, labels);
    forall j | 0 <= j < i ensures test(nodes[j]) == Continue {
      assert Passed(utt, labels, nodes[j]);
    }
    SelectSkip(test, nodes, i);
    assert nodes[i..][0] == nodes[i];
  }

  /** The suffix policy chops at the end: when the sentence does not end in whitespace (as a
      cleaned sentence never does), the chosen span is a suffix of it. */
  lemma SuffixChopAtEnd(utt: string, nodes: seq<string>, labels: map<string, string>)
    requires SelectSuffix(utt, nodes, labels).Chop?
    requires utt == [] || !IsSpace(utt[|utt| - 1])
    ensures EndsWith(utt, SelectSuffix(utt, nodes, labels).span)
  {
    var i := SelectFirstStop(SuffixTest(utt, labels), nodes);
    var n := nodes[i];
    assert SuffixTest(utt, labels)(n).Stop?;
    if !EndsWith(utt, labels[n]) {
      LastTokenIsSuffix(utt);
    }
  }

  /** A node without a label ends the search with "not choppable", even when a later node
      would have matched. */
  lemma SuffixKeyErrorAborts(utt: string, nodes: seq<string>, labels: map<string, string>, i: nat)
    requires i < |nodes| && nodes[i] !in labels
    requires forall j :: 0 <= j < i ==> SuffixStep(utt, labels, nodes[j]) == Continue
    ensures SelectSuffix(utt, nodes, labels) == NoChop
  {
    SelectSkip(SuffixTest(utt, labels), nodes, i);
  }

  /** Concretely: an unlabelled node first hides a later node that ends the sentence. */
  lemma SuffixKeyErrorExample()
    ensures SelectSuffix("I met John Smith", ["x", "n"], map["n" := "John Smith"]) == NoChop
  {
    assert "x" != "n";
    SuffixKeyErrorAborts("I met John Smith", ["x", "n"], map["n" := "John Smith"], 0);
  }

  /** IndexError escapes only for a sentence without words, which a cleaned sentence is only
      when it is empty. */
  lemma SuffixIndexErrorOnBlank(utt: string, nodes: seq<string>, labels: map<string, string>)
    requires SelectSuffix(utt, nodes, labels) == IndexError
    ensures Split(utt) == []
    ensures Stripped(utt) ==> utt == []
  {
    var i := SelectFirstStop(SuffixTest(utt, labels), nodes);
    assert i < |nodes| && SuffixStep(utt, labels, nodes[i]) == Stop(IndexError);
    SuffixStepIndexError(utt, labels, nodes[i]);
    assert utt != [] ==> IsSpace(utt[0]);
  }

  /** One node raises IndexError only when the sentence has no words. */
  lemma SuffixStepIndexError(utt: string, labels: map<string, string>, n: string)
    requires SuffixStep(utt, labels, n) == Stop(IndexError)
    ensures Split(utt) == [] && n in labels && StartsWith(n, "d") && !EndsWith(utt, labels[n])
  {
  }

  /** When no node decides, nothing is chopped. */
  lemma SuffixNoMatch(utt: string, nodes: seq<string>, labels: map<string, string>)
    requires forall j :: 0 <= j < |nodes| ==> SuffixStep(utt, labels, nodes[j]) == Continue
    ensures SelectSuffix(utt, nodes, labels) == NoChop
  {
    SelectSkip(SuffixTest(utt, labels), nodes, |nodes|);
  }

  // ---------------------------------------------------------------- chopAMR

  /** The incomplete sentence: the words of `utt` without the last as many words as the label
      has, joined by single spaces (nothing at all when the label has no words, as `[:-0]`). */
  function ChoppedUtterance(utt: string, span: string): (chopped: string)
    ensures Split(chopped) == DropTail(Split(utt), |Split(span)|)
    ensures Join(Split(chopped), " ") == chopped
    ensures chopped == [] <==> |Split(span)| == 0 || |Split(span)| >= |Split(utt)|
  {
    var kept := DropTail(Split(utt), |Split(span)|);
    assert AllTokens(kept);
    JoinIsStripped(kept);
    SplitJoin(kept);
    JoinOfTokens(kept);
    Strip(Join(kept, " "))
  }

  /** chopAMR: the incomplete half (severed triples, the shortened sentence, the original top)
      and the completion half (the node's own triples, the label, rooted at the node). */
  function ChopAMR(utt: string, graph: Graph, node: string, span: string): (halves: (Graph, Graph))
    requires "id" in graph.metadata
    ensures halves.0.triples == IncompleteTriples(graph.triples, node)
    ensures halves.1.triples == CompletionTriples(graph.triples, node)
    ensures halves.0.top == graph.top && halves.1.top == node
    ensures halves.0.metadata.Keys == halves.1.metadata.Keys == {"id", "chop-date", "chop-section", "snt", "tok"}
    ensures halves.0.metadata["chop-section"] == "incomplete" && halves.1.metadata["chop-section"] == "completion"
    ensures halves.0.metadata["id"] == graph.metadata["id"] == halves.1.metadata["id"]
    ensures halves.0.metadata["snt"] == ChoppedUtterance(utt, span)
    ensures halves.1.metadata["snt"] == span
  {
    var triplesHalf1 := IncompleteTriples(graph.triples, node);
    var triplesHalf2 := CompletionTriples(graph.triples, node);
    var choppedUtt := ChoppedUtterance(utt, span);
    (ChopGraph(graph, triplesHalf1, choppedUtt, false, ""), ChopGraph(graph, triplesHalf2, span, true, node))
  }

  /** When the label's words are the sentence's last words, the incomplete sentence's words
      followed by the label's words are the sentence's words. */
  lemma SuffixTextReassembles(utt: string, span: string)
    requires 0 < |Split(span)| <= |Split(utt)|
    requires Split(utt)[|Split(utt)| - |Split(span)|..] == Split(span)
    ensures Split(ChoppedUtterance(utt, span)) + Split(span) == Split(utt)
  {
    var words := Split(utt);
    DropTailThenTail(words, |Split(span)|);
    assert Split(ChoppedUtterance(utt, span)) == DropTail(words, |Split(span)|);
  }

  /** The guard keeps a suffix chop exactly when at least one word is left, so a sentence that
      is nothing but the label is dropped. */
  lemma SuffixGuard(utt: string, span: string)
    ensures PassesGuard(ChoppedUtterance(utt, span)) <==> 0 < |Split(span)| < |Split(utt)|
    ensures Split(span) == Split(utt) ==> !PassesGuard(ChoppedUtterance(utt, span))
  {
    var chopped := ChoppedUtterance(utt, span);
    JoinOfTokens(Split(chopped));
    if chopped != [] {
      assert IsToken(Split(chopped)[0]);
    }
    PassesGuardUnlessEmpty(chopped);
  }

  lemma WordsOfMetJohnSmith()
    ensures Split("I met John Smith") == ["I", "met", "John", "Smith"]
  {
    assert "I met John Smith" == "I" + " " + "met" + " " + "John" + " " + "Smith";
    AlphanumericToken("I");
    AlphanumericToken("met");
    AlphanumericToken("John");
    AlphanumericToken("Smith");
    JoinFour("I", "met", "John", "Smith");
    SplitJoin(["I", "met", "John", "Smith"]);
  }

  lemma WordsOfJohnSmith()
    ensures Split("John Smith") == ["John", "Smith"]
  {
    assert "John Smith" == "John" + " " + "Smith";
    AlphanumericToken("John");
    AlphanumericToken("Smith");
    JoinTwo("John", "Smith");
    SplitJoin(["John", "Smith"]);
  }

  /** "I met John Smith" chopped at "John Smith" leaves "I met". */
  lemma SuffixExample()
    ensures SelectSuffix("I met John Smith", ["n"], map["n" := "John Smith"]) == Chop("n", "John Smith")
    ensures ChoppedUtterance("I met John Smith", "John Smith") == "I met"
  {
    JohnSmithSelected();
    WordsOfMetJohnSmith();
    WordsOfJohnSmith();
    assert ["I", "met", "John", "Smith"] == ["I", "met"] + ["John", "Smith"];
    ChoppedLeavesFront("I met John Smith", "John Smith", ["I", "met"]);
    JoinIMet();
  }

  /** `endswith` is not bounded by words: the label "Smith" ends "I met JohnSmith", so the whole
      word "JohnSmith" is chopped off, and the guard keeps the chop. */
  lemma SuffixNotWordBounded()
    ensures SelectSuffix("I met JohnSmith", ["n"], map["n" := "Smith"]) == Chop("n", "Smith")
    ensures ChoppedUtterance("I met JohnSmith", "Smith") == "I met"
    ensures PassesGuard(ChoppedUtterance("I met JohnSmith", "Smith"))
  {
    SmithEndsSentence();
    SuffixFindsFirstMatch("I met JohnSmith", ["n"], map["n" := "Smith"], 0);
    ChoppedJohnSmith();
    SuffixGuard("I met JohnSmith", "Smith");
  }

  lemma JohnSmithSelected()
    ensures SelectSuffix("I met John Smith", ["n"], map["n" := "John Smith"]) == Chop("n", "John Smith")
  {
    JohnSmithEndsSentence();
    SuffixFindsFirstMatch("I met John Smith", ["n"], map["n" := "John Smith"], 0);
  }

  lemma JohnSmithEndsSentence()
    ensures EndsWith("I met John Smith", "John Smith")
  {
    var utt := "I met John Smith";
    assert utt[|utt| - 10..] == "John Smith";
  }

  lemma SmithEndsSentence()
    ensures EndsWith("I met JohnSmith", "Smith")
  {
    var utt := "I met JohnSmith";
    assert utt[|utt| - 5..] == "Smith";
  }

  lemma ChoppedJohnSmith()
    ensures Split("I met JohnSmith") == ["I", "met", "JohnSmith"] && Split("Smith") == ["Smith"]
    ensures ChoppedUtterance("I met JohnSmith", "Smith") == "I met"
  {
    WordsOfSmith();
    WordsOfMetJohnSmithJoined();
    assert ["I", "met", "JohnSmith"] == ["I", "met"] + ["JohnSmith"];
    ChoppedDropsFinalWords("I met JohnSmith", "Smith", ["I", "met"], ["JohnSmith"]);
    JoinIMet();
  }

  lemma WordsOfMetJohnSmithJoined()
    ensures Split("I met JohnSmith") == ["I", "met", "JohnSmith"]
  {
    assert "I met JohnSmith" == "I" + " " + "met" + " " + "JohnSmith";
    AlphanumericToken("I");
    AlphanumericToken("met");
    AlphanumericToken("JohnSmith");
    JoinThree("I", "met", "JohnSmith");
    SplitJoin(["I", "met", "JohnSmith"]);
  }

  lemma WordsOfSmith()
    ensures Split("Smith") == ["Smith"]
  {
    WordsOfToken("Smith");
  }

  /** A run of ASCII letters and digits is one word. */
  lemma WordsOfToken(w: string)
    requires w != [] && forall k :: 0 <= k < |w| ==> '0' <= w[k] <= 'z'
    ensures Split(w) == [w]
  {
    AlphanumericToken(w);
    SplitJoin([w]);
  }

  /** The date fallback: label "31" does not end "the 31st", but the date-like node `d` is
      chopped at the last word "31st", which starts with it. */
  lemma SuffixDateExample()
    ensures SelectSuffix("the 31st", ["d"], map["d" := "31"]) == Chop("d", "31st")
  {
    DateLabelNotSuffix();
    WordsOfThe31st();
    DateWordStartsWithLabel();
    SuffixFindsFirstMatch("the 31st", ["d"], map["d" := "31"], 0);
  }

  lemma DateLabelNotSuffix()
    ensures !EndsWith("the 31st", "31") && StartsWith("d", "d")
  {
    var utt := "the 31st";
    assert utt[|utt| - 2..][0] == 's';
  }

  lemma WordsOfThe31st()
    ensures Split("the 31st") == ["the", "31st"]
  {
    assert "the 31st" == "the" + " " + "31st";
    AlphanumericToken("the");
    AlphanumericToken("31st");
    JoinTwo("the", "31st");
    SplitJoin(["the", "31st"]);
  }

  lemma DateWordStartsWithLabel()
    ensures Last(["the", "31st"]) == "31st" && StartsWith("31st", "31")
  {
  }

  /** Every suffix chop that processRecord stores has a completion half with a triple leaving
      its top, unless the chosen node is itself called `name` or `date-entity`. */
  lemma SuffixCompletionRooted(record: Graph)
    requires "snt" in record.metadata && "id" in record.metadata
    requires var utt, nodes := ParseOriginal(record).0, NameNodes(record.triples);
             var v := SelectSuffix(utt, nodes, LabelMap(record.triples, nodes));
             v.Chop? && v.node != "name" && v.node != "date-entity"
    ensures var utt, original := ParseOriginal(record).0, ParseOriginal(record).1;
            var nodes := NameNodes(record.triples);
            var v := SelectSuffix(utt, nodes, LabelMap(record.triples, nodes));
            var completion := ChopAMR(utt, original, v.node, v.span).1;
            exists t :: t in completion.triples && t.source == completion.top
  {
    var utt, original := ParseOriginal(record).0, ParseOriginal(record).1;
    var nodes := NameNodes(record.triples);
    var v := SelectSuffix(utt, nodes, LabelMap(record.triples, nodes));
    SuffixChopIsFirstMatch(utt, nodes, LabelMap(record.triples, nodes));
    CandidateRootsCompletion(record.triples, v.node);
  }

  /** When the sentence's words are some front words followed by the label's words, the
      chopped sentence is exactly the front words joined by single spaces. */
  lemma ChoppedLeavesFront(utt: string, span: string, front: seq<string>)
    requires front != [] && Split(span) != [] && Split(utt) == front + Split(span)
    ensures ChoppedUtterance(utt, span) == Join(front, " ")
  {
    ChoppedDropsFinalWords(utt, span, front, Split(span));
  }

  /** The chop keeps the front words whatever the last words are, as long as there are as many
      of them as the label has words. */
  lemma ChoppedDropsFinalWords(utt: string, span: string, front: seq<string>, tail: seq<string>)
    requires front != [] && Split(utt) == front + tail && |tail| == |Split(span)| > 0
    ensures ChoppedUtterance(utt, span) == Join(front, " ")
  {
    var words := Split(utt);
    assert DropTail(words, |tail|) == front by {
      assert words[..|front|] == front;
    }
    assert AllTokens(front) by {
      assert forall i :: 0 <= i < |front| ==> front[i] == words[i];
    }
    JoinIsStripped(front);
  }

  lemma JoinIMet()
    ensures Join(["I", "met"], " ") == "I met"
  {
    assert "I" + " " + "met" == "I met";
    JoinTwo("I", "met");
  }

  lemma JoinThree(a: string, b: string, c: string)
    ensures Join([a, b, c], " ") == a + " " + b + " " + c
  {
    assert [a, b, c][1..] == [b, c];
    JoinTwo(b, c);
  }

  lemma JoinFour(a: string, b: string, c: string, d: string)
    ensures Join([a, b, c, d], " ") == a + " " + b + " " + c + " " + d
  {
    assert [a, b, c, d][1..] == [b, c, d];
    assert [b, c, d][1..] == [c, d];
    JoinTwo(c, d);
  }

  // ---------------------------------------------------------------- processRecord

  /** What processing one record produces: the accepted chops, or the IndexError that ends
      the run. */
  datatype RecordOutcome = Stored(emitted: seq<Emitted>) | RaisedIndexError

  /** processRecord minus decoding and storing: parse, locate, select one chop point, chop,
      and keep the chop when its incomplete sentence passes the guard. */
  method ProcessRecord(record: Graph) returns (outcome: RecordOutcome)
    requires "snt" in record.metadata && "id" in record.metadata
    ensures outcome.Stored? ==> |outcome.emitted| <= 1
    ensures var utt, original := ParseOriginal(record).0, ParseOriginal(record).1;
            var nodes := NameNodes(record.triples);
            var v := SelectSuffix(utt, nodes, LabelMap(record.triples, nodes));
            && (outcome == RaisedIndexError <==> v == IndexError)
            && (outcome.Stored? && outcome.emitted != [] <==>
                  v.Chop? && 0 < |Split(v.span)| < |Split(utt)|)
            && (outcome.Stored? && outcome.emitted != [] ==>
                  outcome.emitted[0] == Emitted(original, ChopAMR(utt, original, v.node, v.span).0,
                                                         ChopAMR(utt, original, v.node, v.span).1))
  {
    var (utterance, originalGraph) := ParseOriginal(record);
    var nameNodes, nameLabels := GetNameInfo(originalGraph.triples);
    var verdict := WillItChop(utterance, nameNodes, nameLabels);
    match verdict {
      case IndexError =>
        outcome := RaisedIndexError;
      case NoChop =>
        outcome := Stored([]);
      case Chop(chopNode, chopLabel) =>
        var (gh1, gh2) := ChopAMR(utterance, originalGraph, chopNode, chopLabel);
        SuffixGuard(utterance, chopLabel);
        if RemoveAll(gh1.metadata["snt"], " UNK") != "" {
          outcome := Stored([Emitted(originalGraph, gh1, gh2)]);
        } else {
          outcome := Stored([]);
        }
    }
  }
}
