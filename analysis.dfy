/**
 * The `message-bus-macros` analyzer: the root of the tree must be a single
 * sub-topic, and within every node topic names and sub-topic names must be
 * unique. Every violation is collected; none stops the analysis.
 */
module Analysis {
  import opened Wrappers
  import opened Tokens
  import opened Ast
  import opened Uniqueness

  datatype AnalysisError =
    | TopicAtToplevel(name: Ident)     // a bare topic at the root
    | MultipleRoots(name: Ident)       // one of several root sub-topics
    | NonUniqueTopic(name: Ident)
    | NonUniqueSubTopic(name: Ident)

  function TopicNames(topics: seq<Topic>): (r: seq<Ident>)
    ensures |r| == |topics| && forall i :: 0 <= i < |topics| ==> r[i] == topics[i].name
  {
    seq(|topics|, i requires 0 <= i < |topics| => topics[i].name)
  }

  /** Sub-topics are compared by their name alone; the module is not part of the key. */
  function SubTopicNames(subs: seq<SubTopic>): (r: seq<Ident>)
    ensures |r| == |subs| && forall i :: 0 <= i < |subs| ==> r[i] == subs[i].name
  {
    seq(|subs|, i requires 0 <= i < |subs| => subs[i].name)
  }

  // ---------------------------------------------------------------------------
  // Specification: the errors in the order the analyzer pushes them

  /** The "Non-unique topic name" errors of one node's topics. */
  function TopicErrors(topics: seq<Topic>): seq<AnalysisError> {
    Map((n: Ident) => NonUniqueTopic(n), Repeats(TopicNames(topics)))
  }

  /**
   * The errors below a list of sibling sub-topics: for each sub-topic in turn,
   * first everything found inside it, then its own duplicate-name error.
   */
  function SubTopicErrors(subs: seq<SubTopic>): seq<AnalysisError>
    decreases subs
  {
    if |subs| == 0 then []
    else
      var init := subs[..|subs| - 1];
      var last := subs[|subs| - 1];
      SubTopicErrors(init) + NodeErrors(last.child)
        + (if last.name in SubTopicNames(init) then [NonUniqueSubTopic(last.name)] else [])
  }

  /** One more sibling: its block's errors, then its duplicate error if its name was seen. */
  lemma SubTopicErrorsSnoc(subs: seq<SubTopic>, s: SubTopic)
    ensures SubTopicErrors(subs + [s])
         == SubTopicErrors(subs) + NodeErrors(s.child)
            + (if s.name in SubTopicNames(subs) then [NonUniqueSubTopic(s.name)] else [])
  {
    assert (subs + [s])[..|subs|] == subs;
  }

  /** One turn of the sub-topic loop: the set of names seen grows by one name. */
  lemma SeenStep(subs: seq<SubTopic>, i: nat)
    requires i < |subs|
    ensures subs[i].name in KeySet(SubTopicNames(subs[..i])) <==> subs[i].name in SubTopicNames(subs[..i])
    ensures KeySet(SubTopicNames(subs[..i])) + {subs[i].name} == KeySet(SubTopicNames(subs[..i + 1]))
  {
    assert SubTopicNames(subs[..i + 1]) == SubTopicNames(subs[..i]) + [subs[i].name];
    KeySetSnoc(SubTopicNames(subs[..i]), subs[i].name);
    KeySetMember(SubTopicNames(subs[..i]), subs[i].name);
  }

  /** One turn of the sub-topic loop: the errors grow by one sub-topic's. */
  lemma SubTopicStep(init: seq<SubTopic>, s: SubTopic, errors: seq<AnalysisError>, before: seq<AnalysisError>,
                     after: seq<AnalysisError>, seen: bool)
    requires before == errors + SubTopicErrors(init)
    requires seen == (s.name in SubTopicNames(init))
    requires after == before + TopicErrors(s.child.topics) + SubTopicErrors(s.child.subTopics)
                      + (if seen then [NonUniqueSubTopic(s.name)] else [])
    ensures after == errors + SubTopicErrors(init + [s])
  {
    SubTopicErrorsSnoc(init, s);
    AppendAssoc(errors, SubTopicErrors(init), TopicErrors(s.child.topics), SubTopicErrors(s.child.subTopics),
                if seen then [NonUniqueSubTopic(s.name)] else []);
  }

  /** The errors inside one sub-topic's block: its topics, then its sub-topics. */
  function NodeErrors(n: Node): seq<AnalysisError>
    decreases n
  {
    TopicErrors(n.topics) + SubTopicErrors(n.subTopics)
  }

  /** One error per bare root topic, then one per root sub-topic when there are several. */
  function PlacementErrors(ast: Node): seq<AnalysisError> {
    Map((t: Topic) => TopicAtToplevel(t.name), ast.topics)
      + (if |ast.subTopics| > 1 then Map((s: SubTopic) => MultipleRoots(s.name), ast.subTopics) else [])
  }

  /** Everything `analyze` collects, in order. Root topics are never checked for uniqueness. */
  function AnalysisErrors(ast: Node): seq<AnalysisError> {
    PlacementErrors(ast) + SubTopicErrors(ast.subTopics)
  }

  // ---------------------------------------------------------------------------
  // The analyzer as written

  /** `check_topics_for_uniqueness`: appends one error per repeated topic name. */
  method CheckTopicsForUniqueness(topics: seq<Topic>, errors: seq<AnalysisError>) returns (out: seq<AnalysisError>)
    ensures out == errors + TopicErrors(topics)
  {
    out := ReportRepeats(TopicNames(topics), (n: Ident) => NonUniqueTopic(n), errors);
  }

  /**
   * `check_subtopics_for_uniqueness`: for each sub-topic, checks its block's
   * topics, recurses into its block's sub-topics, then inserts its own name.
   */
  method CheckSubtopicsForUniqueness(subs: seq<SubTopic>, errors: seq<AnalysisError>) returns (out: seq<AnalysisError>)
    ensures out == errors + SubTopicErrors(subs)
    decreases subs
  {
    var uniq: set<Ident> := {};
    out := errors;
    for i := 0 to |subs|
      invariant uniq == KeySet(SubTopicNames(subs[..i]))
      invariant out == errors + SubTopicErrors(subs[..i])
    {
      var sub := subs[i];
      ghost var before := out;
      out := CheckTopicsForUniqueness(sub.child.topics, out);
      out := CheckSubtopicsForUniqueness(sub.child.subTopics, out);
      var seen := sub.name in uniq;
      if seen {
        out := out + [NonUniqueSubTopic(sub.name)];
      }
      uniq := uniq + {sub.name};
      SeenStep(subs, i);
      assert subs[..i + 1] == subs[..i] + [sub];
      SubTopicStep(subs[..i], sub, errors, before, out, seen);
    }
    assert subs[..|subs|] == subs;
  }

  /**
   * `analyze`: collects the placement errors and the uniqueness errors below
   * the root. Without errors the tree is accepted; otherwise the one combined
   * error holds the first error and then every error, so the first one twice.
   */
  method Analyze(ast: Node) returns (r: Result<(), seq<AnalysisError>>)
    ensures r.Ok? <==> AnalysisErrors(ast) == []
    ensures r.Err? ==> r.error == [AnalysisErrors(ast)[0]] + AnalysisErrors(ast)
  {
    var errors: seq<AnalysisError> := [];
    for i := 0 to |ast.topics|
      invariant errors == Map((t: Topic) => TopicAtToplevel(t.name), ast.topics[..i])
    {
      errors := errors + [TopicAtToplevel(ast.topics[i].name)];
    }
    assert ast.topics[..|ast.topics|] == ast.topics;
    if |ast.subTopics| > 1 {
      for i := 0 to |ast.subTopics|
        invariant errors == Map((t: Topic) => TopicAtToplevel(t.name), ast.topics)
                          + Map((s: SubTopic) => MultipleRoots(s.name), ast.subTopics[..i])
      {
        errors := errors + [MultipleRoots(ast.subTopics[i].name)];
      }
      assert ast.subTopics[..|ast.subTopics|] == ast.subTopics;
    }
    assert errors == PlacementErrors(ast);
    errors := CheckSubtopicsForUniqueness(ast.subTopics, errors);
    if |errors| > 0 {
      var combined := [errors[0]];
      for i := 0 to |errors|
        invariant combined == [errors[0]] + errors[..i]
      {
        combined := combined + [errors[i]];
      }
      assert errors[..|errors|] == errors;
      return Err(combined);
    }
    return Ok(());
  }

  // ---------------------------------------------------------------------------
  // What the analysis accepts

  /** Pairwise-distinct topic names and sub-topic names at this level and below. */
  predicate WellScoped(n: Node)
    decreases n
  {
    && Distinct(TopicNames(n.topics))
    && Distinct(SubTopicNames(n.subTopics))
    && forall i :: 0 <= i < |n.subTopics| ==> WellScoped(n.subTopics[i].child)
  }

  lemma {:induction false} SubTopicErrorsEmpty(subs: seq<SubTopic>)
    ensures SubTopicErrors(subs) == []
        <==> Distinct(SubTopicNames(subs)) && forall i :: 0 <= i < |subs| ==> WellScoped(subs[i].child)
    decreases subs, 1
  {
    NoRepeatsIffDistinct(SubTopicNames(subs));
    if |subs| > 0 {
      var init := subs[..|subs| - 1];
      var last := subs[|subs| - 1];
      SubTopicErrorsEmpty(init);
      NodeErrorsEmpty(last.child);
      NoRepeatsIffDistinct(SubTopicNames(init));
      assert SubTopicNames(subs)[..|subs| - 1] == SubTopicNames(init);
      assert forall i :: 0 <= i < |init| ==> init[i] == subs[i];
    }
  }

  /** A block passes the uniqueness checks exactly when it is well scoped. */
  lemma {:induction false} NodeErrorsEmpty(n: Node)
    ensures NodeErrors(n) == [] <==> WellScoped(n)
    decreases n, 2
  {
    NoRepeatsIffDistinct(TopicNames(n.topics));
    SubTopicErrorsEmpty(n.subTopics);
  }

  /**
   * `analyze` accepts a tree exactly when the root has no bare topics, at most
   * one sub-topic, and every block below is well scoped. An empty tree passes.
   */
  lemma AnalyzeAcceptsIff(ast: Node)
    ensures AnalysisErrors(ast) == []
        <==> |ast.topics| == 0 && |ast.subTopics| <= 1
             && forall i :: 0 <= i < |ast.subTopics| ==> WellScoped(ast.subTopics[i].child)
  {
    SubTopicErrorsEmpty(ast.subTopics);
  }

  predicate IsPlacement(e: AnalysisError) {
    e.TopicAtToplevel? || e.MultipleRoots?
  }

  /** Below the root only uniqueness errors arise. */
  lemma {:induction false} NoPlacementBelowRoot(subs: seq<SubTopic>)
    ensures forall e :: e in SubTopicErrors(subs) ==> !IsPlacement(e)
    decreases subs
  {
    if |subs| > 0 {
      var init := subs[..|subs| - 1];
      var last := subs[|subs| - 1];
      NoPlacementBelowRoot(init);
      NoPlacementBelowRoot(last.child.subTopics);
    }
  }

  /**
   * The placement errors come first: one per bare root topic, then one per
   * root sub-topic when there are two or more, and nothing else is one.
   */
  lemma PlacementErrorsFirst(ast: Node)
    ensures var es := AnalysisErrors(ast);
      var p := |ast.topics| + (if |ast.subTopics| > 1 then |ast.subTopics| else 0);
      && p <= |es|
      && (forall k :: 0 <= k < |es| ==> (IsPlacement(es[k]) <==> k < p))
      && (forall k :: 0 <= k < |ast.topics| ==> es[k] == TopicAtToplevel(ast.topics[k].name))
      && (|ast.subTopics| > 1 ==>
            forall k :: 0 <= k < |ast.subTopics| ==> es[|ast.topics| + k] == MultipleRoots(ast.subTopics[k].name))
  {
    NoPlacementBelowRoot(ast.subTopics);
    var es := AnalysisErrors(ast);
    var pl := PlacementErrors(ast);
    forall k | |pl| <= k < |es|
      ensures !IsPlacement(es[k])
    {
      assert es[k] == SubTopicErrors(ast.subTopics)[k - |pl|];
    }
  }

  // ---------------------------------------------------------------------------
  // The compile-fail fixtures

  function Leaf(name: Ident): Topic { Topic(name, IdentPath("u32"), 1) }

  function Block(topics: seq<Topic>, subs: seq<SubTopic>): Node { Node(topics, subs) }

  /** One more topic: it is reported when its name was seen before in the same node. */
  lemma TopicErrorsSnoc(topics: seq<Topic>, t: Topic)
    ensures TopicErrors(topics + [t])
         == TopicErrors(topics) + (if t.name in TopicNames(topics) then [NonUniqueTopic(t.name)] else [])
  {
    assert TopicNames(topics + [t]) == TopicNames(topics) + [t.name];
    RepeatsSnoc(TopicNames(topics), t.name);
    MapAppend((n: Ident) => NonUniqueTopic(n), Repeats(TopicNames(topics)),
              if t.name in TopicNames(topics) then [t.name] else []);
  }

  /** A lone sub-topic contributes exactly the errors inside its block. */
  lemma OnlyChild(s: SubTopic)
    ensures SubTopicErrors([s]) == NodeErrors(s.child)
  {
    SubTopicErrorsSnoc([], s);
    assert [] + [s] == [s];
  }

  /** A block with one sub-topic: its topics' errors, then that sub-topic's. */
  lemma BlockErrors(topics: seq<Topic>, s: SubTopic)
    ensures NodeErrors(Block(topics, [s])) == TopicErrors(topics) + NodeErrors(s.child)
  {
    OnlyChild(s);
  }

  lemma SingleLeafClean(t: Topic)
    ensures TopicErrors([t]) == []
  {
    TopicErrorsSnoc([], t);
    assert [] + [t] == [t];
  }

  /** Distinct names followed by a repeat of one of them: only the repeat is reported. */
  lemma OneExtra(ts: seq<Topic>, t: Topic)
    requires Distinct(TopicNames(ts)) && t.name in TopicNames(ts)
    ensures TopicErrors(ts + [t]) == [NonUniqueTopic(t.name)]
  {
    NoRepeatsIffDistinct(TopicNames(ts));
    TopicErrorsSnoc(ts, t);
  }

  /** Two names each given twice in a row: each second occurrence is reported. */
  lemma TwoPairs(a1: Topic, a2: Topic, b1: Topic, b2: Topic)
    requires a1.name == a2.name && b1.name == b2.name && a1.name != b1.name
    ensures TopicErrors([a1, a2, b1, b2]) == [NonUniqueTopic(a1.name), NonUniqueTopic(b1.name)]
  {
    SingleLeafClean(a1);
    TopicErrorsSnoc([a1], a2);
    TopicErrorsSnoc([a1, a2], b1);
    TopicErrorsSnoc([a1, a2, b1], b2);
    assert [a1] + [a2] == [a1, a2] && [a1, a2] + [b1] == [a1, a2, b1] && [a1, a2, b1] + [b2] == [a1, a2, b1, b2];
    assert TopicNames([a1])[0] == a1.name;
    assert TopicNames([a1, a2, b1])[2] == b1.name;
    assert TopicNames([a1, a2]) == [a1.name, a1.name];
  }

  function Data4(): seq<Topic> {
    [Leaf("SomeData"), Leaf("SomeData2"), Leaf("SomeData3"), Leaf("SomeData4")]
  }

  lemma DataNamesDistinct()
    ensures Distinct(TopicNames(Data4())) && Distinct(TopicNames(Data4()[..3]))
  {
    var names := TopicNames(Data4());
    assert names == ["SomeData", "SomeData2", "SomeData3", "SomeData4"];
    assert |"SomeData"| != |"SomeData2"| && |"SomeData"| != |"SomeData3"| && |"SomeData"| != |"SomeData4"|;
    assert "SomeData2"[8] != "SomeData3"[8] && "SomeData2"[8] != "SomeData4"[8] && "SomeData3"[8] != "SomeData4"[8];
    assert TopicNames(Data4()[..3]) == names[..3];
  }

  function Level3(): Node {
    Block([Leaf("SomeData"), Leaf("SomeData2"), Leaf("SomeData3"), Leaf("SomeData4"), Leaf("SomeData4")], [])
  }

  function Level2(): Node {
    Block([Leaf("SomeData"), Leaf("SomeData2"), Leaf("SomeData3"), Leaf("SomeData3")],
          [SubTopic("Topic2", "sub", Level3())])
  }

  function Level1(): Node {
    Block([Leaf("SomeData"), Topic("SomeData", IdentPath("i32"), 1), Leaf("SomeData2"), Topic("SomeData2", IdentPath("i32"), 1)],
          [SubTopic("Topic", "sub", Level2())])
  }

  /** `SomeData`..`SomeData4` repeated at three levels; each level is judged on its own. */
  function DoubleTopicTree(): Node {
    Node([], [SubTopic("Toplevel", "bus", Level1())])
  }

  lemma Level3Errors()
    ensures NodeErrors(Level3()) == [NonUniqueTopic("SomeData4")]
  {
    DataNamesDistinct();
    assert Level3().topics == Data4() + [Leaf("SomeData4")];
    assert TopicNames(Data4())[3] == "SomeData4";
    OneExtra(Data4(), Leaf("SomeData4"));
  }

  lemma Level2Errors()
    ensures NodeErrors(Level2()) == [NonUniqueTopic("SomeData3"), NonUniqueTopic("SomeData4")]
  {
    DataNamesDistinct();
    assert Level2().topics == Data4()[..3] + [Leaf("SomeData3")];
    assert TopicNames(Data4()[..3])[2] == "SomeData3";
    OneExtra(Data4()[..3], Leaf("SomeData3"));
    Level3Errors();
    BlockErrors(Level2().topics, SubTopic("Topic2", "sub", Level3()));
  }

  lemma Level1Errors()
    ensures NodeErrors(Level1()) == [NonUniqueTopic("SomeData"), NonUniqueTopic("SomeData2"),
                                     NonUniqueTopic("SomeData3"), NonUniqueTopic("SomeData4")]
  {
    assert |"SomeData"| != |"SomeData2"|;
    TwoPairs(Leaf("SomeData"), Topic("SomeData", IdentPath("i32"), 1), Leaf("SomeData2"), Topic("SomeData2", IdentPath("i32"), 1));
    Level2Errors();
    BlockErrors(Level1().topics, SubTopic("Topic", "sub", Level2()));
  }

  /** Only the later of two equal names is reported, and a name repeated at another level is not. */
  lemma DoubleTopicErrors()
    ensures AnalysisErrors(DoubleTopicTree())
         == [NonUniqueTopic("SomeData"), NonUniqueTopic("SomeData2"),
             NonUniqueTopic("SomeData3"), NonUniqueTopic("SomeData4")]
  {
    Level1Errors();
    OnlyChild(DoubleTopicTree().subTopics[0]);
    assert PlacementErrors(DoubleTopicTree()) == [];
  }

  /** A block holding one topic and the same sub-topic twice: the second is reported. */
  lemma RepeatedChildErrors(t: Topic, err: SubTopic)
    requires NodeErrors(err.child) == []
    ensures NodeErrors(Block([t], [err, err])) == [NonUniqueSubTopic(err.name)]
  {
    SingleLeafClean(t);
    OnlyChild(err);
    SubTopicErrorsSnoc([err], err);
    assert [err] + [err] == [err, err];
    assert SubTopicNames([err])[0] == err.name;
  }

  /** A repeated sibling followed by a differently named one. */
  lemma RepeatedThenOther(topic: SubTopic, ok: SubTopic)
    requires NodeErrors(topic.child) == [] && ok.name != topic.name
    ensures SubTopicErrors([topic, topic, ok]) == [NonUniqueSubTopic(topic.name)] + NodeErrors(ok.child)
  {
    OnlyChild(topic);
    SubTopicErrorsSnoc([topic], topic);
    SubTopicErrorsSnoc([topic, topic], ok);
    assert [topic] + [topic] == [topic, topic] && [topic, topic] + [ok] == [topic, topic, ok];
    assert SubTopicNames([topic])[0] == topic.name;
    assert SubTopicNames([topic, topic]) == [topic.name, topic.name];
  }

  /** Sibling sub-topics named `Topic` twice at one level and `TopicErr` twice one level down. */
  function DoubleSubTopicTree(): Node {
    var inner := [Leaf("SomeData")];
    var topicOk := SubTopic("TopicOk", "sub", Block(inner,
      [SubTopic("TopicErr", "sub", Block(inner, [])), SubTopic("TopicErr", "sub", Block(inner, []))]));
    var toplevel := SubTopic("Toplevel", "bus", Block([],
      [SubTopic("Topic", "sub", Block(inner, [])), SubTopic("Topic", "sub", Block(inner, [])), topicOk]));
    Node([], [toplevel])
  }

  /** The later duplicate at each level is reported. */
  lemma DoubleSubTopicErrors()
    ensures AnalysisErrors(DoubleSubTopicTree()) == [NonUniqueSubTopic("Topic"), NonUniqueSubTopic("TopicErr")]
  {
    var leaf := Leaf("SomeData");
    var err := SubTopic("TopicErr", "sub", Block([leaf], []));
    var topic := SubTopic("Topic", "sub", Block([leaf], []));
    var ok := SubTopic("TopicOk", "sub", Block([leaf], [err, err]));
    var toplevel := SubTopic("Toplevel", "bus", Block([], [topic, topic, ok]));
    assert DoubleSubTopicTree() == Node([], [toplevel]);
    SingleLeafClean(leaf);
    RepeatedChildErrors(leaf, err);
    assert |"TopicOk"| != |"Topic"|;
    RepeatedThenOther(topic, ok);
    OnlyChild(toplevel);
    assert TopicErrors([]) == [];
  }

  /** A bare topic next to the root sub-topic is a placement error. */
  lemma TopicAtToplevelError()
    ensures AnalysisErrors(Node([Topic("SomeData2", IdentPath("i32"), 1)],
                                [SubTopic("Toplevel", "bus", Block([Leaf("SomeData1")], []))]))
         == [TopicAtToplevel("SomeData2")]
  {
    SingleLeafClean(Leaf("SomeData1"));
    OnlyChild(SubTopic("Toplevel", "bus", Block([Leaf("SomeData1")], [])));
  }

  /** A block holding the same topic name twice reports it once. */
  lemma PairBlockErrors(name: Ident)
    ensures NodeErrors(Block([Leaf(name), Leaf(name)], [])) == [NonUniqueTopic(name)]
  {
    TopicErrorsSnoc([], Leaf(name));
    TopicErrorsSnoc([Leaf(name)], Leaf(name));
    assert [] + [Leaf(name)] == [Leaf(name)];
    assert [Leaf(name)] + [Leaf(name)] == [Leaf(name), Leaf(name)];
    assert TopicErrors([]) == [] && SubTopicErrors([]) == [];
  }

  /** A single sub-topic whose block repeats a topic name. */
  lemma PairBlockAlone(x: Ident, m: Ident, p: Ident)
    ensures SubTopicErrors([SubTopic(x, m, Block([Leaf(p), Leaf(p)], []))]) == [NonUniqueTopic(p)]
    ensures x in SubTopicNames([SubTopic(x, m, Block([Leaf(p), Leaf(p)], []))])
  {
    var a := SubTopic(x, m, Block([Leaf(p), Leaf(p)], []));
    PairBlockErrors(p);
    SubTopicErrorsSnoc([], a);
    assert [] + [a] == [a];
    assert SubTopicNames([a])[0] == x;
  }

  /**
   * Siblings `m1::X` and `m2::X` clash even when their modules differ,
   * because only the name is compared; the errors inside the second `X` come
   * before its own duplicate error.
   */
  lemma SameNameDifferentModule(x: Ident, m1: Ident, m2: Ident, p: Ident, q: Ident)
    ensures SubTopicErrors([SubTopic(x, m1, Block([Leaf(p), Leaf(p)], [])),
                            SubTopic(x, m2, Block([Leaf(q), Leaf(q)], []))])
         == [NonUniqueTopic(p), NonUniqueTopic(q), NonUniqueSubTopic(x)]
  {
    var a := SubTopic(x, m1, Block([Leaf(p), Leaf(p)], []));
    var b := SubTopic(x, m2, Block([Leaf(q), Leaf(q)], []));
    PairBlockAlone(x, m1, p);
    PairBlockErrors(q);
    SubTopicErrorsSnoc([a], b);
    assert [a] + [b] == [a, b];
    assert [NonUniqueTopic(p)] + [NonUniqueTopic(q)] + [NonUniqueSubTopic(x)]
        == [NonUniqueTopic(p), NonUniqueTopic(q), NonUniqueSubTopic(x)];
  }
}
