/** The AMR graph value both chopping scripts work on, and the steps the two scripts share
    word for word: cleaning the sentence of a decoded record (parseOriginal), locating the
    name and date nodes with their labels (getNameInfo), splitting the triples around a
    chosen node (chopTriples), building one graph half (chopGraph), the first-stop search
    both willItChop loops perform, and the guard on the incomplete sentence. */
module AmrGraph {
  import opened PyStr
  import opened Seqs

  /** A relation triple `(source, relation, target)` of a decoded AMR graph. */
  datatype Triple = Triple(source: string, relation: string, target: string)

  /** A layout marker the serializer keeps for pretty-printing; it is never inspected here. */
  datatype Epidatum = Epidatum(marker: string)

  /** A decoded AMR record: its top variable, its triples in order, its metadata and the
      layout data attached to its triples. Graphs are values: the scripts' `deepcopy`
      followed by field assignments becomes a new value built from the old one. */
  datatype Graph = Graph(
    top: string,
    triples: seq<Triple>,
    metadata: map<string, string>,
    epidata: map<Triple, seq<Epidatum>>)

  /** One accepted chop, in the order the scripts hand it to `store`. */
  datatype Emitted = Emitted(original: Graph, incomplete: Graph, completion: Graph)

  /** What a willItChop search reports: the node to chop with the span of text to remove,
      "not choppable", or the IndexError that the suffix search lets escape. */
  datatype Verdict = Chop(node: string, span: string) | NoChop | IndexError

  /** What testing one node inside a willItChop loop decides: go on to the next node,
      or leave the loop with a verdict. */
  datatype Step = Continue | Stop(verdict: Verdict)

  /** The placeholder that replaces the chopped node in the incomplete half. */
  const Unk := "UNK"

  /** The provenance date both scripts write into every half. */
  const ChopDate := "2022-06-29"

  /** The date relations whose values make up a date node's label. */
  const TimeRelations := [":day", ":month", ":year", ":year2"]

  // ---------------------------------------------------------------- parseOriginal

  /** The sentence with every `.` and `?` deleted and the outer whitespace cut off. */
  function CleanUtterance(snt: string): (utt: string)
    ensures '.' !in utt && '?' !in utt
    ensures Stripped(utt)
    ensures forall c :: c in utt ==> c in snt
  {
    var noDots := RemoveChar(snt, '.');
    RemoveCharKeeps(snt, '.');
    RemoveCharKeeps(noDots, '?');
    StripKeepsChars(RemoveChar(noDots, '?'));
    Strip(RemoveChar(noDots, '?'))
  }

  /** parseOriginal minus the decoding: the cleaned sentence, and the record tagged as the
      original section with nothing else about it changed. */
  function ParseOriginal(record: Graph): (r: (string, Graph))
    requires "snt" in record.metadata
    ensures r.0 == CleanUtterance(record.metadata["snt"])
    ensures r.1.metadata.Keys == record.metadata.Keys + {"chop-section"}
    ensures r.1.metadata["chop-section"] == "original"
    ensures forall k :: k in record.metadata && k != "chop-section" ==> r.1.metadata[k] == record.metadata[k]
    ensures r.1.top == record.top && r.1.triples == record.triples && r.1.epidata == record.epidata
  {
    var graph := record.(metadata := record.metadata["chop-section" := "original"]);
    (CleanUtterance(record.metadata["snt"]), graph)
  }

  /** Cleaning an already cleaned sentence changes nothing. */
  lemma CleanUtteranceIdempotent(snt: string)
    ensures CleanUtterance(CleanUtterance(snt)) == CleanUtterance(snt)
  {
    var u := CleanUtterance(snt);
    assert RemoveChar(RemoveChar(u, '.'), '?') == u;
    StripUnchanged(u);
  }

  // ---------------------------------------------------------------- getNameInfo

  /** A triple that makes its source a named entity or a date. */
  predicate IsEntityTriple(t: Triple) {
    t.target == "name" || t.target == "date-entity"
  }

  function SourceOf(t: Triple): string { t.source }

  /** The candidate nodes: the source of every entity triple, in triple order, once per
      such triple (so a node can occur more than once). */
  function NameNodes(ts: seq<Triple>): seq<string>
  {
    Map(SourceOf, Filter(IsEntityTriple, ts))
  }

  /** One more triple adds its source at the end of the candidates when it is an entity triple. */
  lemma NameNodesSnoc(ts: seq<Triple>, t: Triple)
    ensures NameNodes(ts + [t]) == NameNodes(ts) + (if IsEntityTriple(t) then [t.source] else [])
  {
    FilterSnoc(IsEntityTriple, ts, t);
    MapSnoc(SourceOf, Filter(IsEntityTriple, ts), t);
  }

  /** A relation that contributes to a label: an ordinal `:op...` or a date field. */
  predicate IsLabelRelation(relation: string) {
    StartsWith(relation, ":op") || relation in TimeRelations
  }

  /** The triples that contribute to the label of `n`. */
  function LabelTripleOf(n: string): Triple -> bool
  {
    (t: Triple) => t.source == n && IsLabelRelation(t.relation)
  }

  /** A label piece: the triple's target with every double quote removed. */
  function UnquotedTarget(t: Triple): string { RemoveChar(t.target, '"') }

  /** The pieces of the label of `n`, in triple order (not sorted by relation name). */
  function LabelParts(ts: seq<Triple>, n: string): seq<string>
  {
    Map(UnquotedTarget, Filter(LabelTripleOf(n), ts))
  }

  /** The label map: every candidate node with at least one piece, mapped to its pieces
      joined by single spaces; a candidate without pieces has no entry. */
  function LabelMap(ts: seq<Triple>, nodes: seq<string>): (labels: map<string, string>)
    ensures forall n :: n in labels <==> n in nodes && LabelParts(ts, n) != []
    ensures forall n :: n in labels ==> labels[n] == Join(LabelParts(ts, n), " ")
  {
    map n | n in nodes && LabelParts(ts, n) != [] :: Join(LabelParts(ts, n), " ")
  }

  /** One more triple adds at most one piece, at the end, to the label of a node. */
  lemma LabelPartsSnoc(ts: seq<Triple>, t: Triple, n: string)
    ensures LabelParts(ts + [t], n)
            == LabelParts(ts, n) + (if LabelTripleOf(n)(t) then [UnquotedTarget(t)] else [])
  {
    FilterSnoc(LabelTripleOf(n), ts, t);
    MapSnoc(UnquotedTarget, Filter(LabelTripleOf(n), ts), t);
  }

  /** Two maps with the same keys and the same value at every key are equal. */
  lemma MapsEqual<K, V>(a: map<K, V>, b: map<K, V>)
    requires forall k :: k in a <==> k in b
    requires forall k :: k in a ==> a[k] == b[k]
    ensures a == b
  {
  }

  /** The label of the source of a contributing triple grows by that triple's piece. */
  lemma LabelGrows(ts: seq<Triple>, t: Triple, nodes: seq<string>)
    requires t.source in nodes && IsLabelRelation(t.relation)
    ensures var before, after := LabelMap(ts, nodes), LabelMap(ts + [t], nodes);
            t.source in after &&
            after[t.source] == if t.source in before then before[t.source] + " " + UnquotedTarget(t)
                               else UnquotedTarget(t)
  {
    LabelPartsSnoc(ts, t, t.source);
    if LabelParts(ts, t.source) != [] {
      JoinSnoc(LabelParts(ts, t.source), UnquotedTarget(t), " ");
    } else {
      assert LabelParts(ts + [t], t.source) == [UnquotedTarget(t)];
    }
  }

  /** The label of a node that is not the source of the new triple, or of any node when the
      triple does not contribute, stays as it was. */
  lemma LabelUnchanged(ts: seq<Triple>, t: Triple, nodes: seq<string>, n: string)
    requires n != t.source || !IsLabelRelation(t.relation)
    ensures var before, after := LabelMap(ts, nodes), LabelMap(ts + [t], nodes);
            (n in after <==> n in before) && (n in after ==> after[n] == before[n])
  {
    LabelPartsSnoc(ts, t, n);
    assert LabelParts(ts + [t], n) == LabelParts(ts, n);
  }

  /** How one more triple changes the label map: it extends the label of its source when
      the source is a candidate and the relation contributes, and changes nothing otherwise. */
  lemma LabelMapSnoc(ts: seq<Triple>, t: Triple, nodes: seq<string>)
    ensures var before, after := LabelMap(ts, nodes), LabelMap(ts + [t], nodes);
            && (t.source in nodes && IsLabelRelation(t.relation) ==>
                  after == before[t.source := if t.source in before
                                              then before[t.source] + " " + UnquotedTarget(t)
                                              else UnquotedTarget(t)])
            && (!(t.source in nodes && IsLabelRelation(t.relation)) ==> after == before)
  {
    var before, after := LabelMap(ts, nodes), LabelMap(ts + [t], nodes);
    if t.source in nodes && IsLabelRelation(t.relation) {
      var expected := before[t.source := if t.source in before
                                         then before[t.source] + " " + UnquotedTarget(t)
                                         else UnquotedTarget(t)];
      LabelGrows(ts, t, nodes);
      forall n | n != t.source
        ensures (n in after <==> n in expected) && (n in after ==> after[n] == expected[n])
      {
        LabelUnchanged(ts, t, nodes, n);
      }
      assert after[t.source] == expected[t.source];
      assert forall n :: n in after ==> after[n] == expected[n];
      MapsEqual(after, expected);
    } else {
      forall n | true
        ensures (n in after <==> n in before) && (n in after ==> after[n] == before[n])
      {
        if n == t.source && IsLabelRelation(t.relation) {
          assert n !in nodes;
        } else {
          LabelUnchanged(ts, t, nodes, n);
        }
      }
      MapsEqual(after, before);
    }
  }

  /** getNameInfo: the candidate nodes and their labels, collected by the script's two loops
      over the triples. */
  method GetNameInfo(triples: seq<Triple>) returns (nodes: seq<string>, labels: map<string, string>)
    ensures nodes == NameNodes(triples)
    ensures labels == LabelMap(triples, nodes)
    ensures forall n :: n in labels ==> n in nodes && labels[n] == Join(LabelParts(triples, n), " ")
  {
    nodes := CollectNameNodes(triples);
    labels := CollectLabels(triples, nodes);
  }

  /** getNameInfo's first loop: the source of every `name` or `date-entity` triple. */
  method CollectNameNodes(triples: seq<Triple>) returns (nodes: seq<string>)
    ensures nodes == NameNodes(triples)
  {
    nodes := [];
    var i := 0;
    while i < |triples|
      invariant 0 <= i <= |triples|
      invariant nodes == NameNodes(triples[..i])
    {
      var t := triples[i];
      assert triples[..i + 1] == triples[..i] + [t];
      NameNodesSnoc(triples[..i], t);
      if t.target == "name" {
        nodes := nodes + [t.source];
      }
      if t.target == "date-entity" {
        nodes := nodes + [t.source];
      }
      i := i + 1;
    }
    assert triples[..i] == triples;
  }

  /** getNameInfo's second loop: the `:op` and date pieces of every candidate, appended to its
      label in triple order. */
  method CollectLabels(triples: seq<Triple>, nodes: seq<string>) returns (labels: map<string, string>)
    ensures labels == LabelMap(triples, nodes)
  {
    labels := map[];
    var i := 0;
    while i < |triples|
      invariant 0 <= i <= |triples|
      invariant labels == LabelMap(triples[..i], nodes)
    {
      var t := triples[i];
      assert triples[..i + 1] == triples[..i] + [t];
      labels := CollectLabel(triples[..i], t, nodes, labels);
      i := i + 1;
    }
    assert triples[..i] == triples;
  }

  /** One iteration of getNameInfo's second loop: triple `t` extends or creates the label of
      its source when that is a candidate and the relation contributes. */
  method CollectLabel(seen: seq<Triple>, t: Triple, nodes: seq<string>, labels: map<string, string>)
      returns (labels': map<string, string>)
    requires labels == LabelMap(seen, nodes)
    ensures labels' == LabelMap(seen + [t], nodes)
  {
    LabelMapSnoc(seen, t, nodes);
    labels' := labels;
    if t.source in nodes && StartsWith(t.relation, ":op") {
      if t.source in labels {
        labels' := labels[t.source := labels[t.source] + " " + RemoveChar(t.target, '"')];
      } else {
        labels' := labels[t.source := RemoveChar(t.target, '"')];
      }
    } else if t.source in nodes && t.relation in TimeRelations {
      if t.source in labels {
        labels' := labels[t.source := labels[t.source] + " " + RemoveChar(t.target, '"')];
      } else {
        labels' := labels[t.source := RemoveChar(t.target, '"')];
      }
    }
  }

  /** Every entity triple contributes its source to the candidates, and nothing else does. */
  lemma NameNodesMembers(ts: seq<Triple>, n: string)
    ensures n in NameNodes(ts) <==> exists i :: 0 <= i < |ts| && ts[i].source == n && IsEntityTriple(ts[i])
  {
    var f := Filter(IsEntityTriple, ts);
    FilterMembers(IsEntityTriple, ts);
    if n in NameNodes(ts) {
      var k :| 0 <= k < |f| && Map(SourceOf, f)[k] == n;
      var i :| 0 <= i < |ts| && ts[i] == f[k];
    }
    if exists i :: 0 <= i < |ts| && ts[i].source == n && IsEntityTriple(ts[i]) {
      var i :| 0 <= i < |ts| && ts[i].source == n && IsEntityTriple(ts[i]);
      var k :| 0 <= k < |f| && f[k] == ts[i];
      assert Map(SourceOf, f)[k] == n;
    }
  }

  /** A name node whose `:op2` triple comes before its `:op1` triple. */
  const OutOfOrderName := [Triple("n", ":instance", "name"), Triple("n", ":op2", "\"B\""), Triple("n", ":op1", "\"A\"")]

  lemma OutOfOrderNameNodes()
    ensures NameNodes(OutOfOrderName) == ["n"]
  {
    var a, b, c := OutOfOrderName[0], OutOfOrderName[1], OutOfOrderName[2];
    assert [a] == [] + [a] && [a, b] == [a] + [b] && OutOfOrderName == [a, b] + [c];
    FilterSnoc(IsEntityTriple, [], a);
    FilterSnoc(IsEntityTriple, [a], b);
    FilterSnoc(IsEntityTriple, [a, b], c);
    assert Filter(IsEntityTriple, OutOfOrderName) == [a];
  }

  lemma OutOfOrderNameParts()
    ensures LabelParts(OutOfOrderName, "n") == ["B", "A"]
  {
    var a, b, c := OutOfOrderName[0], OutOfOrderName[1], OutOfOrderName[2];
    InstanceContributesNothing();
    OpContributes(b.relation);
    OpContributes(c.relation);
    UnquoteLetter('B');
    UnquoteLetter('A');
    PartsOfThree(a, b, c, "n");
    assert OutOfOrderName == [a, b, c];
  }

  /** Of three triples, the pieces of the second and third when only they contribute to `n`. */
  lemma PartsOfThree(a: Triple, b: Triple, c: Triple, n: string)
    requires !LabelTripleOf(n)(a) && LabelTripleOf(n)(b) && LabelTripleOf(n)(c)
    ensures LabelParts([a, b, c], n) == [UnquotedTarget(b), UnquotedTarget(c)]
  {
    var s1, s2, s3 := [a], [a, b], [a, b, c];
    assert s1 == [] + [a] && s2 == s1 + [b] && s3 == s2 + [c];
    LabelPartsSnoc([], a, n);
    LabelPartsSnoc(s1, b, n);
    LabelPartsSnoc(s2, c, n);
  }

  lemma InstanceContributesNothing()
    ensures !IsLabelRelation(":instance")
  {
    assert ":instance"[2] != ":op"[2];
    assert forall r :: r in TimeRelations ==> |r| < |":instance"|;
  }

  lemma OpContributes(relation: string)
    requires |relation| == 4 && relation[..3] == ":op"
    ensures IsLabelRelation(relation)
  {
  }

  lemma UnquoteLetter(x: char)
    requires x != '"'
    ensures RemoveChar(['"', x, '"'], '"') == [x]
  {
    assert RemoveChar(['"'], '"') == [];
    assert RemoveChar([x, '"'], '"') == [x] + RemoveChar([x, '"'][1..], '"');
    assert [x, '"'][1..] == ['"'];
    assert RemoveChar(['"', x, '"'], '"') == [] + RemoveChar(['"', x, '"'][1..], '"');
    assert ['"', x, '"'][1..] == [x, '"'];
  }

  /** Labels follow triple order: `:op2 "B"` before `:op1 "A"` gives "B A", not "A B". */
  lemma LabelsFollowTripleOrder()
    ensures NameNodes(OutOfOrderName) == ["n"]
    ensures var labels := LabelMap(OutOfOrderName, NameNodes(OutOfOrderName));
            "n" in labels && labels["n"] == "B A"
  {
    assert "B" + " " + "A" == "B A";
    JoinTwo("B", "A");
    OutOfOrderNameNodes();
    OutOfOrderNameParts();
  }

  // ---------------------------------------------------------------- chopTriples

  /** A triple that goes to the completion half: it leaves `node` without pointing back at it. */
  function ToCompletion(node: string): Triple -> bool
  {
    (t: Triple) => t.target != node && t.source == node
  }

  /** The incomplete half's copy of a kept triple: a reference to `node` becomes `UNK`. */
  function Sever(node: string): Triple -> Triple
  {
    (t: Triple) => if t.target == node then Triple(t.source, t.relation, Unk) else t
  }

  /** The completion half's triples. */
  function CompletionTriples(ts: seq<Triple>, node: string): seq<Triple>
  {
    Filter(ToCompletion(node), ts)
  }

  /** The incomplete half's triples: every other triple, in order, with its reference to `node` severed. */
  function IncompleteTriples(ts: seq<Triple>, node: string): seq<Triple>
  {
    Map(Sever(node), Filter(Complement(ToCompletion(node)), ts))
  }

  /** One more triple lands at the end of exactly one half. */
  lemma ChopTriplesSnoc(ts: seq<Triple>, t: Triple, node: string)
    ensures CompletionTriples(ts + [t], node)
            == CompletionTriples(ts, node) + (if t.target != node && t.source == node then [t] else [])
    ensures IncompleteTriples(ts + [t], node)
            == IncompleteTriples(ts, node) + (if t.target == node then [Triple(t.source, t.relation, Unk)]
                                              else if t.source == node then [] else [t])
  {
    FilterSnoc(ToCompletion(node), ts, t);
    FilterSnoc(Complement(ToCompletion(node)), ts, t);
    MapSnoc(Sever(node), Filter(Complement(ToCompletion(node)), ts), t);
  }

  /** chopTriples: one pass over the triples that appends each one to the half it belongs to. */
  method ChopTriples(triples: seq<Triple>, node: string) returns (half1: seq<Triple>, half2: seq<Triple>)
    ensures half2 == Filter(ToCompletion(node), triples)
    ensures half1 == Map(Sever(node), Filter(Complement(ToCompletion(node)), triples))
    ensures |half1| + |half2| == |triples|
  {
    half1, half2 := [], [];
    var i := 0;
    while i < |triples|
      invariant 0 <= i <= |triples|
      invariant half2 == CompletionTriples(triples[..i], node)
      invariant half1 == IncompleteTriples(triples[..i], node)
    {
      var t := triples[i];
      assert triples[..i + 1] == triples[..i] + [t];
      ChopTriplesSnoc(triples[..i], t, node);
      if t.target == node {
        var chopped := Triple(t.source, t.relation, Unk);
        half1 := half1 + [chopped];
      } else if t.source == node {
        half2 := half2 + [t];
      } else {
        half1 := half1 + [t];
      }
      i := i + 1;
    }
    assert triples[..i] == triples;
    FilterPartition(ToCompletion(node), triples);
  }

  /** Restoring `node` where the incomplete half says `UNK` undoes the severing. */
  function Restore(node: string): Triple -> Triple
  {
    (t: Triple) => if t.target == Unk then Triple(t.source, t.relation, node) else t
  }

  /** When no triple already points at `UNK`, the two halves put back together (with `node`
      restored in place of `UNK`) hold exactly the original triples, each as often as before. */
  lemma ChopTriplesReassemble(ts: seq<Triple>, node: string)
    requires forall i :: 0 <= i < |ts| ==> ts[i].target != Unk
    ensures multiset(Map(Restore(node), IncompleteTriples(ts, node))) + multiset(CompletionTriples(ts, node))
            == multiset(ts)
  {
    var kept := Filter(Complement(ToCompletion(node)), ts);
    FilterMembers(Complement(ToCompletion(node)), ts);
    forall i | 0 <= i < |kept| ensures Restore(node)(Sever(node)(kept[i])) == kept[i] {
      assert kept[i] in ts;
    }
    MapInverse(Sever(node), Restore(node), kept);
    FilterPartition(ToCompletion(node), ts);
  }

  /** After the split, the incomplete half no longer mentions `node` as a target (unless the
      node is itself called `UNK`) and every completion triple leaves `node`. */
  lemma ChopTriplesSevered(ts: seq<Triple>, node: string)
    ensures node != Unk ==> forall t :: t in IncompleteTriples(ts, node) ==> t.target != node
    ensures forall t :: t in CompletionTriples(ts, node) ==> t.source == node && t.target != node
  {
    var kept := Filter(Complement(ToCompletion(node)), ts);
    var h1 := IncompleteTriples(ts, node);
    forall t | t in h1 && node != Unk ensures t.target != node {
      var i :| 0 <= i < |h1| && h1[i] == t;
      assert t == Sever(node)(kept[i]);
    }
    var h2 := CompletionTriples(ts, node);
    FilterMembers(ToCompletion(node), ts);
    forall t | t in h2 ensures t.source == node && t.target != node {
      var i :| 0 <= i < |h2| && h2[i] == t;
      assert ToCompletion(node)(h2[i]);
    }
  }

  /** A candidate is the source of its own `name`/`date-entity` triple, which goes to the
      completion half unless it points back at the node, so the completion half, rooted at the
      node, has a triple leaving its top. */
  lemma CandidateRootsCompletion(ts: seq<Triple>, n: string)
    requires n in NameNodes(ts) && n != "name" && n != "date-entity"
    ensures exists t :: t in CompletionTriples(ts, n) && t.source == n
  {
    NameNodesMembers(ts, n);
    var i :| 0 <= i < |ts| && ts[i].source == n && IsEntityTriple(ts[i]);
    FilterMembers(ToCompletion(n), ts);
    assert ToCompletion(n)(ts[i]);
  }

  // ---------------------------------------------------------------- chopGraph

  /** chopGraph: a half with the given triples and sentence, fresh metadata and no layout
      data. The completion half (`h2`) is rooted at `node`; the incomplete half keeps the
      original top (`node` is not read then). */
  function ChopGraph(graph: Graph, newTriples: seq<Triple>, utt: string, h2: bool, node: string): (gh: Graph)
    requires "id" in graph.metadata
    ensures gh.triples == newTriples && gh.epidata == map[]
    ensures gh.metadata.Keys == {"id", "chop-date", "chop-section", "snt", "tok"}
    ensures gh.metadata["id"] == graph.metadata["id"] && gh.metadata["chop-date"] == ChopDate
    ensures gh.metadata["snt"] == utt && gh.metadata["tok"] == utt
    ensures gh.metadata["chop-section"] == if h2 then "completion" else "incomplete"
    ensures gh.top == if h2 then node else graph.top
  {
    var gh := graph.(triples := newTriples);
    var gh := gh.(metadata := map["id" := graph.metadata["id"], "chop-date" := ChopDate,
                                  "chop-section" := "incomplete", "snt" := utt, "tok" := utt]);
    var gh := gh.(epidata := map[]);
    if h2 then gh.(top := node, metadata := gh.metadata["chop-section" := "completion"]) else gh
  }

  // ---------------------------------------------------------------- willItChop's loop

  /** The verdict of a willItChop loop that tests `nodes` in order with `test`: the verdict of
      the first node that stops the loop, or "not choppable" when none does. */
  function Select(test: string -> Step, nodes: seq<string>): Verdict
  {
    if nodes == [] then NoChop
    else match test(nodes[0])
      case Stop(v) => v
      case Continue => Select(test, nodes[1..])
  }

  /** The search is decided by the first node that stops it: the returned index `i` is that
      node's position, or `|nodes|` when every node lets the loop continue. */
  lemma {:induction false} SelectFirstStop(test: string -> Step, nodes: seq<string>) returns (i: nat)
    ensures i <= |nodes|
    ensures forall j :: 0 <= j < i ==> test(nodes[j]) == Continue
    ensures i < |nodes| ==> test(nodes[i]).Stop? && Select(test, nodes) == test(nodes[i]).verdict
    ensures i == |nodes| ==> Select(test, nodes) == NoChop
  {
    if nodes == [] {
      i := 0;
    } else if test(nodes[0]).Stop? {
      i := 0;
    } else {
      var k := SelectFirstStop(test, nodes[1..]);
      i := k + 1;
    }
  }

  /** The nodes before position `i` all let the loop continue, so they do not matter. */
  lemma {:induction false} SelectSkip(test: string -> Step, nodes: seq<string>, i: nat)
    requires i <= |nodes|
    requires forall j :: 0 <= j < i ==> test(nodes[j]) == Continue
    ensures Select(test, nodes) == Select(test, nodes[i..])
  {
    if i > 0 {
      SelectSkip(test, nodes[1..], i - 1);
      assert nodes[1..][i - 1..] == nodes[i..];
    }
  }

  // ---------------------------------------------------------------- the emptiness guard

  /** processRecord's guard: the incomplete sentence is kept unless deleting every " UNK" from
      it leaves nothing. */
  predicate PassesGuard(snt: string) {
    RemoveAll(snt, " UNK") != ""
  }

  /** A non-empty sentence that does not start with whitespace always passes the guard. */
  lemma PassesGuardUnlessEmpty(snt: string)
    requires snt == [] || !IsSpace(snt[0])
    ensures PassesGuard(snt) <==> snt != []
  {
    if snt != [] {
      assert !StartsWith(snt, " UNK") by {
        assert snt[0] != ' ';
      }
    }
  }
}
