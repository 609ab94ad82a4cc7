/**
 * The `async-bus-macros` analyzer: within every node, including the root,
 * topic names and sub-topic paths must be unique. There is no rule on what
 * the root may hold. Every violation is collected.
 */
module AsyncAnalysis {
  import opened Wrappers
  import opened Tokens
  import opened AsyncAst
  import opened Uniqueness

  datatype AnalysisError =
    | NonUniqueTopic(name: Ident)
    | NonUniqueSubTopic(path: Path)

  function TopicNames(topics: seq<Topic>): (r: seq<Ident>)
    ensures |r| == |topics| && forall i :: 0 <= i < |topics| ==> r[i] == topics[i].name
  {
    seq(|topics|, i requires 0 <= i < |topics| => topics[i].name)
  }

  /** Sub-topics are compared by their whole `module::Name` path. */
  function SubTopicNames(subs: seq<SubTopic>): (r: seq<Path>)
    ensures |r| == |subs| && forall i :: 0 <= i < |subs| ==> r[i] == subs[i].name
  {
    seq(|subs|, i requires 0 <= i < |subs| => subs[i].name)
  }

  // ---------------------------------------------------------------------------
  // Specification: the errors in the order the analyzer pushes them

  function TopicErrors(topics: seq<Topic>): seq<AnalysisError> {
    Map((n: Ident) => NonUniqueTopic(n), Repeats(TopicNames(topics)))
  }

  /** For each sibling in turn: everything found inside it, then its own duplicate-path error. */
  function SubTopicErrors(subs: seq<SubTopic>): seq<AnalysisError>
    decreases subs
  {
    if |subs| == 0 then []
    else
      var init := subs[..|subs| - 1];
      var last := subs[|subs| - 1];
      // The child is smaller than the list that holds its sub-topic.
      assert last in subs && last.child < last;
      SubTopicErrors(init) + NodeErrors(last.child)
        + (if last.name in SubTopicNames(init) then [NonUniqueSubTopic(last.name)] else [])
  }

  function NodeErrors(n: Node): seq<AnalysisError>
    decreases n
  {
    TopicErrors(n.topics) + SubTopicErrors(n.subTopics)
  }

  /** Everything `analyze` collects: the root is checked like any other node. */
  function AnalysisErrors(ast: Node): seq<AnalysisError> {
    NodeErrors(ast)
  }

  lemma SubTopicErrorsSnoc(subs: seq<SubTopic>, s: SubTopic)
    ensures SubTopicErrors(subs + [s])
         == SubTopicErrors(subs) + NodeErrors(s.child)
            + (if s.name in SubTopicNames(subs) then [NonUniqueSubTopic(s.name)] else [])
  {
    assert (subs + [s])[..|subs|] == subs;
  }

  lemma SeenStep(subs: seq<SubTopic>, i: nat)
    requires i < |subs|
    ensures subs[i].name in KeySet(SubTopicNames(subs[..i])) <==> subs[i].name in SubTopicNames(subs[..i])
    ensures KeySet(SubTopicNames(subs[..i])) + {subs[i].name} == KeySet(SubTopicNames(subs[..i + 1]))
  {
    assert SubTopicNames(subs[..i + 1]) == SubTopicNames(subs[..i]) + [subs[i].name];
    KeySetSnoc(SubTopicNames(subs[..i]), subs[i].name);
    KeySetMember(SubTopicNames(subs[..i]), subs[i].name);
  }

  lemma SubTopicStep(init: seq<SubTopic>, s: SubTopic, errors: seq<AnalysisError>, before: seq<AnalysisError>,
                     after: seq<AnalysisError>, seen: bool)
    requires before == errors + SubTopicErrors(init)
    requires seen == (s.name in SubTopicNames(init))
    requires after == before + TopicErrors(s.child.topics) + SubTopicErrors(s.child.subTopics)
                      + (if seen then [NonUniqueSubTopic(s.name)] else [])
    ensures after == errors + SubTopicErrors(init + [s])
  {
    SubTopicErrorsSnoc(init, s);
    AppendAssoc(errors, SubTopicErrors(init), TopicErrors(s.child.topics), SubTopicErrors(s.child.subTopics),
                if seen then [NonUniqueSubTopic(s.name)] else []);
  }

  // ---------------------------------------------------------------------------
  // The analyzer as written

  /** `check_topics_for_uniqueness` */
  method CheckTopicsForUniqueness(topics: seq<Topic>, errors: seq<AnalysisError>) returns (out: seq<AnalysisError>)
    ensures out == errors + TopicErrors(topics)
  {
    out := ReportRepeats(TopicNames(topics), (n: Ident) => NonUniqueTopic(n), errors);
  }

  /** `check_subtopics_for_uniqueness` */
  method CheckSubtopicsForUniqueness(subs: seq<SubTopic>, errors: seq<AnalysisError>) returns (out: seq<AnalysisError>)
    ensures out == errors + SubTopicErrors(subs)
    decreases subs
  {
    var uniq: set<Path> := {};
    out := errors;
    for i := 0 to |subs|
      invariant uniq == KeySet(SubTopicNames(subs[..i]))
      invariant out == errors + SubTopicErrors(subs[..i])
    {
      var sub := subs[i];
      assert sub in subs && sub.child < sub;
      ghost var before := out;
      out := CheckTopicsForUniqueness(sub.child.topics, out);
      out := CheckSubtopicsForUniqueness(sub.child.subTopics, out);
      var seen := sub.name in uniq;
      if seen {
        out := out + [NonUniqueSubTopic(sub.name)];
      }
      uniq := uniq + {sub.name};
      SeenStep(subs, i);
      assert subs[..i + 1] == subs[..i] + [sub];
      SubTopicStep(subs[..i], sub, errors, before, out, seen);
    }
    assert subs[..|subs|] == subs;
  }

  /**
   * `analyze`: checks the root's topics and sub-topics. Without errors the
   * tree is accepted; otherwise the combined error holds the first error and
   * then every error.
   */
  method Analyze(ast: Node) returns (r: Result<(), seq<AnalysisError>>)
    ensures r.Ok? <==> AnalysisErrors(ast) == []
    ensures r.Err? ==> r.error == [AnalysisErrors(ast)[0]] + AnalysisErrors(ast)
  {
    var errors := CheckTopicsForUniqueness(ast.topics, []);
    errors := CheckSubtopicsForUniqueness(ast.subTopics, errors);
    if |errors| > 0 {
      var combined := [errors[0]];
      for i := 0 to |errors|
        invariant combined == [errors[0]] + errors[..i]
      {
        combined := combined + [errors[i]];
      }
      assert errors[..|errors|] == errors;
      return Err(combined);
    }
    return Ok(());
  }

  // ---------------------------------------------------------------------------
  // What the analysis accepts

  /** Pairwise-distinct topic names and sub-topic paths at this level and below. */
  predicate WellScoped(n: Node)
    decreases n
  {
    && Distinct(TopicNames(n.topics))
    && Distinct(SubTopicNames(n.subTopics))
    && forall i :: 0 <= i < |n.subTopics| ==> WellScoped(n.subTopics[i].child)
  }

  lemma {:induction false} SubTopicErrorsEmpty(subs: seq<SubTopic>)
    ensures SubTopicErrors(subs) == []
        <==> Distinct(SubTopicNames(subs)) && forall i :: 0 <= i < |subs| ==> WellScoped(subs[i].child)
    decreases subs, 1
  {
    NoRepeatsIffDistinct(SubTopicNames(subs));
    if |subs| > 0 {
      var init := subs[..|subs| - 1];
      var last := subs[|subs| - 1];
      SubTopicErrorsEmpty(init);
      assert last in subs && last.child < last;
      NodeErrorsEmpty(last.child);
      NoRepeatsIffDistinct(SubTopicNames(init));
      assert SubTopicNames(subs)[..|subs| - 1] == SubTopicNames(init);
      assert forall i :: 0 <= i < |init| ==> init[i] == subs[i];
    }
  }

  lemma {:induction false} NodeErrorsEmpty(n: Node)
    ensures NodeErrors(n) == [] <==> WellScoped(n)
    decreases n, 2
  {
    NoRepeatsIffDistinct(TopicNames(n.topics));
    SubTopicErrorsEmpty(n.subTopics);
  }

  /**
   * `analyze` accepts a tree exactly when it is well scoped, root included;
   * how many topics and sub-topics the root holds does not matter.
   */
  lemma AnalyzeAcceptsIff(ast: Node)
    ensures AnalysisErrors(ast) == [] <==> WellScoped(ast)
  {
    NodeErrorsEmpty(ast);
  }

  /** Within one node, a topic name written k times gives k - 1 errors. */
  lemma TopicRepeatCount(topics: seq<Topic>, name: Ident)
    ensures multiset(TopicErrors(topics))[NonUniqueTopic(name)]
         == if multiset(TopicNames(topics))[name] == 0 then 0 else multiset(TopicNames(topics))[name] - 1
  {
    var reps := Repeats(TopicNames(topics));
    RepeatCount(TopicNames(topics), name);
    MapCount(reps, name);
  }

  /** Reporting maps each repeated name to its own error, so the counts agree. */
  lemma {:induction false} MapCount(names: seq<Ident>, name: Ident)
    ensures multiset(Map((n: Ident) => NonUniqueTopic(n), names))[NonUniqueTopic(name)] == multiset(names)[name]
    decreases |names|
  {
    if |names| > 0 {
      var init := names[..|names| - 1];
      MapCount(init, name);
      LastSplit(names);
      MapAppend((n: Ident) => NonUniqueTopic(n), init, [names[|names| - 1]]);
    }
  }

  // ---------------------------------------------------------------------------
  // The crate's UI fixtures

  function Leaf(name: Ident, payload: Ident): Topic { Topic(name, IdentPath(payload)) }

  function Block(path: Path, topics: seq<Topic>, subs: seq<SubTopic>): SubTopic {
    SubTopic(path, Node(topics, subs))
  }

  lemma TopicErrorsSnoc(topics: seq<Topic>, t: Topic)
    ensures TopicErrors(topics + [t])
         == TopicErrors(topics) + (if t.name in TopicNames(topics) then [NonUniqueTopic(t.name)] else [])
  {
    assert TopicNames(topics + [t]) == TopicNames(topics) + [t.name];
    RepeatsSnoc(TopicNames(topics), t.name);
    MapAppend((n: Ident) => NonUniqueTopic(n), Repeats(TopicNames(topics)),
              if t.name in TopicNames(topics) then [t.name] else []);
  }

  /** A node with one topic and nothing else has no errors. */
  lemma SingleTopicBlock(path: Path, t: Topic)
    ensures NodeErrors(Block(path, [t], []).child) == []
  {
    TopicErrorsSnoc([], t);
    assert [] + [t] == [t];
  }

  /** Two clean siblings with different paths give no error. */
  lemma TwoDistinctSiblings(a: SubTopic, b: SubTopic)
    requires NodeErrors(a.child) == [] && NodeErrors(b.child) == [] && a.name != b.name
    ensures AnalysisErrors(Node([], [a, b])) == []
  {
    SubTopicErrorsSnoc([], a);
    SubTopicErrorsSnoc([a], b);
    assert [] + [a] == [a] && [a] + [b] == [a, b];
    assert SubTopicNames([a]) == [a.name];
    assert TopicErrors([]) == [];
  }

  /** Two topics with different names give no error. */
  lemma TwoDistinctTopics(x: Topic, y: Topic)
    requires x.name != y.name
    ensures AnalysisErrors(Node([x, y], [])) == []
  {
    TopicErrorsSnoc([], x);
    TopicErrorsSnoc([x], y);
    assert [] + [x] == [x] && [x] + [y] == [x, y];
    assert TopicNames([x]) == [x.name];
    assert SubTopicErrors([]) == [];
  }

  /** `double_toplevel.rs`: two root sub-topics are accepted here, and so are two root topics. */
  lemma DoubleToplevelAccepted()
    ensures AnalysisErrors(Node([], [
              Block(ModulePath("bus", "Toplevel1"), [Leaf("SomeData1", "i32")], []),
              Block(ModulePath("bus", "Toplevel2"), [Leaf("SomeData2", "u32")], [])])) == []
    ensures AnalysisErrors(Node([Leaf("A", "u8"), Leaf("B", "u8")], [])) == []
  {
    var a := Block(ModulePath("bus", "Toplevel1"), [Leaf("SomeData1", "i32")], []);
    var b := Block(ModulePath("bus", "Toplevel2"), [Leaf("SomeData2", "u32")], []);
    SingleTopicBlock(a.name, Leaf("SomeData1", "i32"));
    SingleTopicBlock(b.name, Leaf("SomeData2", "u32"));
    assert a.name != b.name by {
      assert a.name.segments[1].ident[8] != b.name.segments[1].ident[8];
    }
    TwoDistinctSiblings(a, b);
    assert "A"[0] != "B"[0];
    TwoDistinctTopics(Leaf("A", "u8"), Leaf("B", "u8"));
  }

  /** Root topics are checked: the same name twice at the root is an error. */
  lemma RootTopicsChecked(name: Ident)
    ensures AnalysisErrors(Node([Leaf(name, "u8"), Leaf(name, "u16")], [])) == [NonUniqueTopic(name)]
  {
    TopicErrorsSnoc([], Leaf(name, "u8"));
    TopicErrorsSnoc([Leaf(name, "u8")], Leaf(name, "u16"));
    assert [] + [Leaf(name, "u8")] == [Leaf(name, "u8")];
    assert [Leaf(name, "u8")] + [Leaf(name, "u16")] == [Leaf(name, "u8"), Leaf(name, "u16")];
    assert TopicErrors([]) == [] && SubTopicErrors([]) == [];
    assert name in TopicNames([Leaf(name, "u8")]);
  }

  /** Sibling sub-topics that differ only in their module do not clash. */
  lemma ModuleDistinguishes(m1: Ident, m2: Ident, name: Ident)
    requires m1 != m2
    ensures AnalysisErrors(Node([], [Block(ModulePath(m1, name), [], []), Block(ModulePath(m2, name), [], [])])) == []
  {
    var a := Block(ModulePath(m1, name), [], []);
    var b := Block(ModulePath(m2, name), [], []);
    assert ModulePath(m1, name) != ModulePath(m2, name) by {
      assert ModulePath(m1, name).segments[0].ident != ModulePath(m2, name).segments[0].ident;
    }
    assert WellScoped(Node([], [a, b])) by {
      assert WellScoped(a.child) && WellScoped(b.child);
    }
    AnalyzeAcceptsIff(Node([], [a, b]));
  }

  /** A block holding one topic and the same sub-topic twice: the second is reported. */
  lemma RepeatedChildErrors(err: SubTopic, t: Topic)
    requires NodeErrors(err.child) == []
    ensures NodeErrors(Node([t], [err, err])) == [NonUniqueSubTopic(err.name)]
  {
    SingleTopicBlock(err.name, t);
    SubTopicErrorsSnoc([], err);
    SubTopicErrorsSnoc([err], err);
    assert [] + [err] == [err] && [err] + [err] == [err, err];
    assert SubTopicNames([err])[0] == err.name;
  }

  /** A repeated sibling followed by a differently named one. */
  lemma RepeatedThenOther(topic: SubTopic, ok: SubTopic)
    requires NodeErrors(topic.child) == [] && ok.name != topic.name
    ensures SubTopicErrors([topic, topic, ok]) == [NonUniqueSubTopic(topic.name)] + NodeErrors(ok.child)
  {
    SubTopicErrorsSnoc([], topic);
    SubTopicErrorsSnoc([topic], topic);
    SubTopicErrorsSnoc([topic, topic], ok);
    assert [] + [topic] == [topic] && [topic] + [topic] == [topic, topic] && [topic, topic] + [ok] == [topic, topic, ok];
    assert SubTopicNames([topic])[0] == topic.name;
    assert SubTopicNames([topic, topic]) == [topic.name, topic.name];
  }

  /** `double_subtopic.rs`: the repeated `sub::Topic` and the nested repeated `sub::TopicErr`, in that order. */
  lemma DoubleSubTopicErrors()
    ensures var topic := Block(ModulePath("sub", "Topic"), [Leaf("SomeData", "u32")], []);
      var err := Block(ModulePath("sub", "TopicErr"), [Leaf("SomeData", "u32")], []);
      var ok := Block(ModulePath("sub", "TopicOk"), [Leaf("SomeData", "u32")], [err, err]);
      AnalysisErrors(Node([], [topic, topic, ok]))
        == [NonUniqueSubTopic(ModulePath("sub", "Topic")), NonUniqueSubTopic(ModulePath("sub", "TopicErr"))]
  {
    var leaf := Leaf("SomeData", "u32");
    var topic := Block(ModulePath("sub", "Topic"), [leaf], []);
    var err := Block(ModulePath("sub", "TopicErr"), [leaf], []);
    var ok := Block(ModulePath("sub", "TopicOk"), [leaf], [err, err]);
    SingleTopicBlock(topic.name, leaf);
    SingleTopicBlock(err.name, leaf);
    RepeatedChildErrors(err, leaf);
    assert ok.name != topic.name by {
      assert ok.name.segments[1] != topic.name.segments[1] by {
        assert |"TopicOk"| != |"Topic"|;
      }
    }
    RepeatedThenOther(topic, ok);
    assert TopicErrors([]) == [];
  }
}
