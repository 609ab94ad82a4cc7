/**
 * The `message-bus-macros` code generator, as the declarations it emits
 * rather than Rust tokens: per sub-topic a module with a channel whose
 * capacity is the subtree's total, a tagged union of its topics and child
 * sub-topics, and per topic a `publish` that first forwards the payload, wrapped
 * in variant constructors, to every enclosing sub-topic's channel.
 */
module Codegen {
  import opened Tokens
  import opened Ast

  /** The value a generated `publish` sends on a channel. */
  datatype PayloadExpr =
    | Payload                 // the `payload` argument itself
    | PayloadClone            // `payload.clone()`
    | Wrapped(supers: nat, enumName: Ident, variant: Ident, inner: PayloadExpr)
      // `super::`×supers `enumName::variant(inner)`

  /** `super::`×supers `__TOPIC_channel.publish(value);` */
  datatype Publish = Publish(supers: nat, channel: Ident, value: PayloadExpr)

  datatype EnumArm = TopicArm(name: Ident, payload: Path) | SubTopicArm(name: Ident)

  datatype EnumDecl = EnumDecl(name: Ident, arms: seq<EnumArm>)

  /** A topic's handle: its channel's payload and capacity, and the statements of its `publish`. */
  datatype TopicDecl = TopicDecl(name: Ident, payload: Path, capacity: nat, publishBody: seq<Publish>)

  /** A sub-topic's module. */
  datatype SubTopicDecl = SubTopicDecl(
    reexport: bool,             // `pub use module::Name;` one level up
    moduleName: Ident,
    name: Ident,
    capacity: nat,              // capacity of the sub-topic's own channel
    topicsEnum: EnumDecl,
    topics: seq<TopicDecl>,
    children: seq<SubTopicDecl>)

  // ---------------------------------------------------------------------------
  // Channel capacity of a sub-topic

  function SumCapacities(ts: seq<Topic>): nat
    decreases |ts|
  {
    if |ts| == 0 then 0 else SumCapacities(ts[..|ts| - 1]) + ts[|ts| - 1].capacity
  }

  lemma {:induction false} SumCapacitiesAppend(a: seq<Topic>, b: seq<Topic>)
    ensures SumCapacities(a + b) == SumCapacities(a) + SumCapacities(b)
    decreases |b|
  {
    if |b| > 0 {
      assert (a + b)[..|a + b| - 1] == a + b[..|b| - 1];
      SumCapacitiesAppend(a, b[..|b| - 1]);
    } else {
      assert a + b == a;
    }
  }

  /** The sum of the capacities of every topic at any depth below the sub-topic. */
  function TotalCapacity(st: SubTopic): nat {
    SumCapacities(AllTopics(st.child))
  }

  /**
   * `find_total_capacity`: adds the capacities of the block's own topics to
   * the accumulator, then recurses into every child sub-topic.
   */
  method FindTotalCapacity(st: SubTopic, capacity: nat) returns (total: nat)
    ensures total == capacity + TotalCapacity(st)
    decreases st
  {
    var topics := st.child.topics;
    var topicCap := 0;
    for k := 0 to |topics|
      invariant topicCap == SumCapacities(topics[..k])
    {
      assert topics[..k + 1][..k] == topics[..k];
      topicCap := topicCap + topics[k].capacity;
    }
    assert topics[..|topics|] == topics;
    total := capacity + topicCap;
    var subs := st.child.subTopics;
    for k := 0 to |subs|
      invariant total == capacity + SumCapacities(topics) + SumCapacities(AllTopicsOf(subs[..k]))
    {
      total := FindTotalCapacity(subs[k], total);
      assert subs[..k + 1][..k] == subs[..k];
      SumCapacitiesAppend(AllTopicsOf(subs[..k]), AllTopics(subs[k].child));
    }
    assert subs[..|subs|] == subs;
    SumCapacitiesAppend(topics, AllTopicsOf(subs));
  }

  /** With positive topic capacities, a subtree's capacity is at least its number of topics. */
  lemma {:induction false} CapacityCoversTopics(ts: seq<Topic>)
    requires forall t :: t in ts ==> t.capacity >= 1
    ensures SumCapacities(ts) >= |ts|
    decreases |ts|
  {
    if |ts| > 0 {
      assert ts[|ts| - 1] in ts;
      CapacityCoversTopics(ts[..|ts| - 1]);
    }
  }

  /**
   * A sub-topic's channel has capacity 0 exactly when its subtree declares no
   * topic at all (for a parsed tree, whose capacities are positive).
   */
  lemma ZeroCapacityIffNoTopics(st: SubTopic)
    requires PositiveCapacities(st.child)
    ensures TotalCapacity(st) == 0 <==> |AllTopics(st.child)| == 0
    ensures TotalCapacity(st) >= |AllTopics(st.child)|
  {
    CapacityCoversTopics(AllTopics(st.child));
  }

  // ---------------------------------------------------------------------------
  // The tagged union of a sub-topic

  /**
   * `make_topics_enum`: one arm per topic carrying its payload, then one arm
   * per child sub-topic carrying that sub-topic's type, in source order.
   */
  function MakeTopicsEnum(name: Ident, topics: seq<Topic>, subTopics: seq<SubTopic>): (e: EnumDecl)
    ensures e.name == name && |e.arms| == |topics| + |subTopics|
    ensures forall i :: 0 <= i < |topics| ==> e.arms[i] == TopicArm(topics[i].name, topics[i].payload)
    ensures forall j :: 0 <= j < |subTopics| ==> e.arms[|topics| + j] == SubTopicArm(subTopics[j].name)
  {
    EnumDecl(name,
      seq(|topics|, i requires 0 <= i < |topics| => TopicArm(topics[i].name, topics[i].payload))
      + seq(|subTopics|, j requires 0 <= j < |subTopics| => SubTopicArm(subTopics[j].name)))
  }

  // ---------------------------------------------------------------------------
  // The fan-out to enclosing sub-topics

  /**
   * The value sent to the k-th enclosing sub-topic (k = 0 the innermost) of a
   * topic `cur` whose enclosing sub-topics, outermost first, are `stack`.
   */
  function AncestorValue(stack: seq<Ident>, cur: Ident, k: nat): PayloadExpr
    requires k < |stack|
    decreases k
  {
    var inner := if k == 0 then PayloadClone else AncestorValue(stack, cur, k - 1);
    var variant := if k == 0 then cur else stack[|stack| - k];
    Wrapped(k, stack[|stack| - 1 - k], variant, inner)
  }

  /** One publish per enclosing sub-topic, innermost first. */
  function ParentPublishes(stack: seq<Ident>, cur: Ident): seq<Publish> {
    seq(|stack|, k requires 0 <= k < |stack| => Publish(k, stack[|stack| - 1 - k], AncestorValue(stack, cur, k)))
  }

  /** The enum names of the nested constructors, outermost first. */
  function Enums(v: PayloadExpr): seq<Ident> {
    if v.Wrapped? then [v.enumName] + Enums(v.inner) else []
  }

  /** The variant names of the nested constructors, outermost first. */
  function Variants(v: PayloadExpr): seq<Ident> {
    if v.Wrapped? then [v.variant] + Variants(v.inner) else []
  }

  /** The number of `super::` prefixes of each nested constructor, outermost first. */
  function Supers(v: PayloadExpr): seq<nat> {
    if v.Wrapped? then [v.supers] + Supers(v.inner) else []
  }

  /** What the constructors finally wrap. */
  function Core(v: PayloadExpr): PayloadExpr {
    if v.Wrapped? then Core(v.inner) else v
  }

  /** `[k, k - 1, ..., 0]` */
  function CountDown(k: nat): seq<nat> {
    if k == 0 then [0] else [k] + CountDown(k - 1)
  }

  lemma {:induction false} AncestorEnums(stack: seq<Ident>, cur: Ident, k: nat)
    requires k < |stack|
    ensures Enums(AncestorValue(stack, cur, k)) == stack[|stack| - 1 - k..]
    decreases k
  {
    var n := |stack|;
    if k == 0 {
      assert stack[n - 1..] == [stack[n - 1]];
    } else {
      AncestorEnums(stack, cur, k - 1);
      assert stack[n - 1 - k..] == [stack[n - 1 - k]] + stack[n - k..];
    }
  }

  lemma {:induction false} AncestorVariants(stack: seq<Ident>, cur: Ident, k: nat)
    requires k < |stack|
    ensures Variants(AncestorValue(stack, cur, k)) == stack[|stack| - k..] + [cur]
    decreases k
  {
    var n := |stack|;
    if k == 0 {
      assert stack[n..] == [];
    } else {
      AncestorVariants(stack, cur, k - 1);
      assert stack[n - k..] == [stack[n - k]] + stack[n - k + 1..];
    }
  }

  lemma {:induction false} AncestorSupersCore(stack: seq<Ident>, cur: Ident, k: nat)
    requires k < |stack|
    ensures Supers(AncestorValue(stack, cur, k)) == CountDown(k)
    ensures Core(AncestorValue(stack, cur, k)) == PayloadClone
    decreases k
  {
    if k > 0 {
      AncestorSupersCore(stack, cur, k - 1);
    }
  }

  /**
   * The value for the k-th enclosing sub-topic wraps `payload.clone()` in k + 1
   * constructors. Read outside in, they are the enums of the enclosing
   * sub-topics from that one inwards, each with the variant named after the
   * next-inner node (ending at the topic itself), and the constructor at
   * nesting level m from the inside carries m `super::` prefixes.
   */
  lemma AncestorValueShape(stack: seq<Ident>, cur: Ident, k: nat)
    requires k < |stack|
    ensures var v := AncestorValue(stack, cur, k);
      && Enums(v) == stack[|stack| - 1 - k..]
      && Variants(v) == stack[|stack| - k..] + [cur]
      && Supers(v) == CountDown(k)
      && Core(v) == PayloadClone
      && |Enums(v)| == k + 1
  {
    AncestorEnums(stack, cur, k);
    AncestorVariants(stack, cur, k);
    AncestorSupersCore(stack, cur, k);
  }

  // ---------------------------------------------------------------------------
  // The tracker of enclosing sub-topics

  /** `SubTopicTracker`: the names of the sub-topics enclosing the code being generated, outermost first. */
  class SubTopicTracker {
    var stack: seq<Ident>

    constructor ()
      ensures stack == []
    {
      stack := [];
    }

    function Depth(): nat
      reads this
    {
      |stack|
    }

    /** Generation is at the root, or directly inside the root sub-topic. */
    predicate AtRoot()
      reads this
    {
      Depth() < 2
    }

    method AddSubtopic(subtopic: Ident)
      modifies this
      ensures stack == old(stack) + [subtopic]
    {
      stack := stack + [subtopic];
    }

    /** Pops the innermost name; popping an empty tracker leaves it empty. */
    method RemoveLastSubtopic()
      modifies this
      ensures stack == if old(stack) == [] then [] else old(stack)[..|old(stack)| - 1]
    {
      if |stack| > 0 {
        stack := stack[..|stack| - 1];
      }
    }

    /**
     * `to_parent_publishes`: walks the tracker from the innermost name out,
     * wrapping the payload one constructor deeper and adding one `super::`
     * per step.
     */
    method ToParentPublishes(currentTopic: Ident) returns (pubs: seq<Publish>)
      ensures pubs == ParentPublishes(stack, currentTopic)
    {
      var n := |stack|;
      pubs := [];
      var supers := 0;
      var payload := PayloadClone;
      var lastTopic := currentTopic;
      var k := n;
      while k > 0
        invariant 0 <= k <= n
        invariant supers == n - k
        invariant pubs == ParentPublishes(stack, currentTopic)[..n - k]
        invariant lastTopic == if k == n then currentTopic else stack[k]
        invariant payload == if k == n then PayloadClone else AncestorValue(stack, currentTopic, n - k - 1)
      {
        k := k - 1;
        var parentTopic := stack[k];
        payload := Wrapped(supers, parentTopic, lastTopic, payload);
        pubs := pubs + [Publish(supers, parentTopic, payload)];
        supers := supers + 1;
        lastTopic := parentTopic;
      }
    }
  }

  /** One publish per enclosing sub-topic, innermost first, the i-th with i `super::` prefixes. */
  lemma ParentPublishesShape(stack: seq<Ident>, cur: Ident)
    ensures var pubs := ParentPublishes(stack, cur);
      && |pubs| == |stack|
      && forall k :: 0 <= k < |stack| ==>
           && pubs[k].channel == stack[|stack| - 1 - k]
           && pubs[k].supers == k
           && Enums(pubs[k].value) == stack[|stack| - 1 - k..]
           && Variants(pubs[k].value) == stack[|stack| - k..] + [cur]
           && Supers(pubs[k].value) == CountDown(k)
           && Core(pubs[k].value) == PayloadClone
  {
    forall k | 0 <= k < |stack| {
      AncestorValueShape(stack, cur, k);
    }
  }

  /**
   * `bus::t2::t3::Topic13::publish(18)` in the crate's example delivers
   * `Toplevel::SubTopic8(SubTopic8::SubTopic12(SubTopic12::Topic13(..)))`
   * on the root channel.
   */
  lemma ExampleFanOut()
    ensures var pubs := ParentPublishes(["Toplevel", "SubTopic8", "SubTopic12"], "Topic13");
      && |pubs| == 3
      && pubs[2] == Publish(2, "Toplevel",
           Wrapped(2, "Toplevel", "SubTopic8",
             Wrapped(1, "SubTopic8", "SubTopic12",
               Wrapped(0, "SubTopic12", "Topic13", PayloadClone))))
  {
    var stack := ["Toplevel", "SubTopic8", "SubTopic12"];
    assert AncestorValue(stack, "Topic13", 0) == Wrapped(0, "SubTopic12", "Topic13", PayloadClone);
    assert AncestorValue(stack, "Topic13", 1)
        == Wrapped(1, "SubTopic8", "SubTopic12", AncestorValue(stack, "Topic13", 0));
  }

  // ---------------------------------------------------------------------------
  // Topics and sub-topics

  /** The handle of one topic inside the sub-topics `stack`: ancestor publishes, then its own. */
  function TopicDeclFor(stack: seq<Ident>, t: Topic): TopicDecl {
    TopicDecl(t.name, t.payload, t.capacity, ParentPublishes(stack, t.name) + [Publish(0, t.name, Payload)])
  }

  function TopicDecls(stack: seq<Ident>, topics: seq<Topic>): seq<TopicDecl> {
    seq(|topics|, i requires 0 <= i < |topics| => TopicDeclFor(stack, topics[i]))
  }

  /** `codegen_topics`: one handle per topic, each with the tracker's fan-out. */
  method CodegenTopics(topics: seq<Topic>, tracker: SubTopicTracker) returns (decls: seq<TopicDecl>)
    ensures decls == TopicDecls(tracker.stack, topics)
  {
    decls := [];
    for i := 0 to |topics|
      invariant decls == TopicDecls(tracker.stack, topics[..i])
    {
      var pubs := tracker.ToParentPublishes(topics[i].name);
      decls := decls + [TopicDecl(topics[i].name, topics[i].payload, topics[i].capacity,
                                  pubs + [Publish(0, topics[i].name, Payload)])];
    }
    assert topics[..|topics|] == topics;
  }

  /**
   * In a topic's `publish`, every enclosing sub-topic is published to first,
   * innermost first, and the topic's own channel last, with the payload moved.
   */
  lemma PublishOrder(stack: seq<Ident>, t: Topic)
    ensures var body := TopicDeclFor(stack, t).publishBody;
      && |body| == |stack| + 1
      && body[|stack|] == Publish(0, t.name, Payload)
      && forall k :: 0 <= k < |stack| ==> body[k].channel == stack[|stack| - 1 - k] && body[k].value != Payload
  {
    ParentPublishesShape(stack, t.name);
    var body := TopicDeclFor(stack, t).publishBody;
    forall k | 0 <= k < |stack|
      ensures body[k].value != Payload
    {
      assert body[k].value == AncestorValue(stack, t.name, k);
    }
  }

  /** The module of one sub-topic generated inside the enclosing sub-topics `ancestors`. */
  function GenSubTopic(s: SubTopic, ancestors: seq<Ident>): SubTopicDecl
    decreases s, 1
  {
    var stack := ancestors + [s.name];
    SubTopicDecl(
      |stack| >= 2,
      s.moduleName,
      s.name,
      TotalCapacity(s),
      MakeTopicsEnum(s.name, s.child.topics, s.child.subTopics),
      TopicDecls(stack, s.child.topics),
      GenSubTopics(s.child.subTopics, stack))
  }

  function GenSubTopics(subs: seq<SubTopic>, ancestors: seq<Ident>): (r: seq<SubTopicDecl>)
    ensures |r| == |subs|
    decreases subs, 0
  {
    if |subs| == 0 then []
    else GenSubTopics(subs[..|subs| - 1], ancestors) + [GenSubTopic(subs[|subs| - 1], ancestors)]
  }

  lemma GenSubTopicsSnoc(subs: seq<SubTopic>, s: SubTopic, ancestors: seq<Ident>)
    ensures GenSubTopics(subs + [s], ancestors) == GenSubTopics(subs, ancestors) + [GenSubTopic(s, ancestors)]
  {
    assert (subs + [s])[..|subs|] == subs;
  }

  /**
   * `codegen_subtopics`: for each sub-topic, pushes its name, generates its
   * enum, topics and children, computes its capacity, and pops the name, so
   * the tracker ends as it started.
   */
  method CodegenSubtopics(subs: seq<SubTopic>, tracker: SubTopicTracker) returns (decls: seq<SubTopicDecl>)
    modifies tracker
    ensures tracker.stack == old(tracker.stack)
    ensures decls == GenSubTopics(subs, old(tracker.stack))
    decreases subs
  {
    decls := [];
    ghost var ancestors := tracker.stack;
    for i := 0 to |subs|
      invariant tracker.stack == ancestors
      invariant decls == GenSubTopics(subs[..i], ancestors)
    {
      var sub := subs[i];
      tracker.AddSubtopic(sub.name);
      var topicEnum := MakeTopicsEnum(sub.name, sub.child.topics, sub.child.subTopics);
      var topics := CodegenTopics(sub.child.topics, tracker);
      var children := CodegenSubtopics(sub.child.subTopics, tracker);
      var reexport := !tracker.AtRoot();
      var capacity := FindTotalCapacity(sub, 0);
      decls := decls + [SubTopicDecl(reexport, sub.moduleName, sub.name, capacity, topicEnum, topics, children)];
      tracker.RemoveLastSubtopic();
      assert subs[..i + 1] == subs[..i] + [sub];
      GenSubTopicsSnoc(subs[..i], sub, ancestors);
    }
    assert subs[..|subs|] == subs;
  }

  /**
   * `at_root`: while a sub-topic's module is generated, the tracker is at
   * the root exactly when that sub-topic has no enclosing one, which is
   * exactly when its module is not re-exported.
   */
  lemma AtRootIffNotReexported(tracker: SubTopicTracker, ancestors: seq<Ident>, s: SubTopic)
    requires tracker.stack == ancestors + [s.name]
    ensures tracker.AtRoot() <==> ancestors == []
    ensures tracker.AtRoot() <==> !GenSubTopic(s, ancestors).reexport
  {
  }

  /**
   * `generate`: starts from an empty tracker and emits the modules of the
   * root sub-topics only; bare root topics produce nothing.
   */
  method Generate(ast: Node) returns (decls: seq<SubTopicDecl>)
    ensures decls == GenSubTopics(ast.subTopics, [])
  {
    var tracker := new SubTopicTracker();
    decls := CodegenSubtopics(ast.subTopics, tracker);
  }

  // ---------------------------------------------------------------------------
  // Properties of the generated tree

  /** Every sub-topic module below the root one is re-exported; a root module never is. */
  lemma {:induction false} ReexportIffNested(subs: seq<SubTopic>, ancestors: seq<Ident>)
    ensures forall i :: 0 <= i < |subs| ==> (GenSubTopics(subs, ancestors)[i].reexport <==> |ancestors| >= 1)
    ensures |ancestors| >= 1 ==> AllReexported(GenSubTopics(subs, ancestors))
    decreases subs, 0
  {
    if |subs| > 0 {
      ReexportIffNested(subs[..|subs| - 1], ancestors);
      var s := subs[|subs| - 1];
      ReexportIffNested(s.child.subTopics, ancestors + [s.name]);
      assert forall i :: 0 <= i < |subs| - 1 ==> GenSubTopics(subs, ancestors)[i] == GenSubTopics(subs[..|subs| - 1], ancestors)[i];
    }
  }

  /** Every module of the forest, at any depth, is re-exported. */
  predicate AllReexported(ds: seq<SubTopicDecl>)
    decreases ds
  {
    forall i :: 0 <= i < |ds| ==> ds[i].reexport && AllReexported(ds[i].children)
  }

  /** The root module is not re-exported; every module nested in it is. */
  lemma GenerateReexports(ast: Node)
    ensures forall d :: d in GenSubTopics(ast.subTopics, []) ==> !d.reexport && AllReexported(d.children)
  {
    ReexportIffNested(ast.subTopics, []);
    forall i | 0 <= i < |ast.subTopics|
      ensures AllReexported(GenSubTopics(ast.subTopics, [])[i].children)
    {
      var s := ast.subTopics[i];
      assert [] + [s.name] == [s.name];
      ReexportIffNested(s.child.subTopics, [s.name]);
      GenSubTopicIndex(ast.subTopics, [], i);
    }
  }

  lemma {:induction false} GenSubTopicIndex(subs: seq<SubTopic>, ancestors: seq<Ident>, i: nat)
    requires i < |subs|
    ensures GenSubTopics(subs, ancestors)[i] == GenSubTopic(subs[i], ancestors)
    decreases |subs|
  {
    if i < |subs| - 1 {
      GenSubTopicIndex(subs[..|subs| - 1], ancestors, i);
    }
  }

  // ---------------------------------------------------------------------------
  // Every constructor of the fan-out names an arm of an enclosing enum

  /** The names of an enum's arms, in order. */
  function ArmNames(e: EnumDecl): (names: seq<Ident>)
    ensures |names| == |e.arms| && forall i :: 0 <= i < |e.arms| ==> names[i] == e.arms[i].name
  {
    seq(|e.arms|, i requires 0 <= i < |e.arms| => e.arms[i].name)
  }

  /** The names of a chain of nested modules, outermost first. */
  function ModuleNames(chain: seq<SubTopicDecl>): (names: seq<Ident>)
    ensures |names| == |chain| && forall j :: 0 <= j < |chain| ==> names[j] == chain[j].name
  {
    seq(|chain|, j requires 0 <= j < |chain| => chain[j].name)
  }

  /** What is nested directly inside module j of the chain: the next module, or `inner` inside the last. */
  function Inside(chain: seq<SubTopicDecl>, inner: Ident, j: nat): Ident
    requires j < |chain|
  {
    if j + 1 < |chain| then chain[j + 1].name else inner
  }

  /**
   * Each module of the chain declares its enum under its own name, with an
   * arm named after what is nested directly inside it.
   */
  predicate Linked(chain: seq<SubTopicDecl>, inner: Ident) {
    forall j :: 0 <= j < |chain| ==>
      chain[j].topicsEnum.name == chain[j].name && Inside(chain, inner, j) in ArmNames(chain[j].topicsEnum)
  }

  /**
   * Read outside in, the m-th constructor of `v` names the enum of module
   * j + m of the chain and one of that enum's arms, down to the chain's last
   * module.
   */
  predicate ConstructorsResolve(v: PayloadExpr, chain: seq<SubTopicDecl>, j: nat) {
    && j + |Enums(v)| == |chain|
    && |Variants(v)| == |Enums(v)|
    && forall m :: 0 <= m < |Enums(v)| ==>
         Enums(v)[m] == chain[j + m].topicsEnum.name && Variants(v)[m] in ArmNames(chain[j + m].topicsEnum)
  }

  /**
   * A topic handle's k-th publish goes to the channel of the k-th module of
   * the chain counted from the inside, with a value resolving against the
   * chain from that module on.
   */
  predicate HandleResolves(td: TopicDecl, chain: seq<SubTopicDecl>) {
    && |td.publishBody| == |chain| + 1
    && forall k :: 0 <= k < |chain| ==>
         && td.publishBody[k].channel == chain[|chain| - 1 - k].name
         && ConstructorsResolve(td.publishBody[k].value, chain, |chain| - 1 - k)
  }

  /**
   * Every topic handle of module d, nested in the modules `outer`, resolves
   * against the chain ending at d; and likewise in every module nested in d.
   */
  predicate HandlesResolve(d: SubTopicDecl, outer: seq<SubTopicDecl>)
    decreases d
  {
    && (forall td :: td in d.topics ==> HandleResolves(td, outer + [d]))
    && forall c :: c in d.children ==> HandlesResolve(c, outer + [d])
  }

  lemma LinkedSnoc(outer: seq<SubTopicDecl>, d: SubTopicDecl, inner: Ident)
    requires Linked(outer, d.name) && d.topicsEnum.name == d.name && inner in ArmNames(d.topicsEnum)
    ensures Linked(outer + [d], inner)
  {
    forall j | 0 <= j < |outer|
      ensures Inside(outer + [d], inner, j) == Inside(outer, d.name, j)
    {
    }
  }

  /** The value sent to the k-th enclosing module uses only arms of the enums along a linked chain. */
  lemma AncestorValueResolves(chain: seq<SubTopicDecl>, cur: Ident, k: nat)
    requires Linked(chain, cur) && k < |chain|
    ensures ConstructorsResolve(AncestorValue(ModuleNames(chain), cur, k), chain, |chain| - 1 - k)
  {
    var j := |chain| - 1 - k;
    var stack := ModuleNames(chain);
    var v := AncestorValue(stack, cur, k);
    AncestorValueShape(stack, cur, k);
    forall m | 0 <= m < k + 1
      ensures Enums(v)[m] == chain[j + m].topicsEnum.name
      ensures Variants(v)[m] == Inside(chain, cur, j + m)
    {
      assert Enums(v)[m] == stack[j + m];
      if m < k {
        assert Variants(v)[m] == stack[j + m + 1];
      }
    }
  }

  lemma TopicHandleResolves(chain: seq<SubTopicDecl>, t: Topic)
    requires Linked(chain, t.name)
    ensures HandleResolves(TopicDeclFor(ModuleNames(chain), t), chain)
  {
    var body := TopicDeclFor(ModuleNames(chain), t).publishBody;
    forall k | 0 <= k < |chain|
      ensures ConstructorsResolve(body[k].value, chain, |chain| - 1 - k)
    {
      assert body[k].value == AncestorValue(ModuleNames(chain), t.name, k);
      AncestorValueResolves(chain, t.name, k);
    }
  }

  /** The topic handles of a sub-topic nested in a linked chain resolve their fan-out values. */
  lemma GenTopicsResolve(s: SubTopic, outer: seq<SubTopicDecl>)
    requires Linked(outer, s.name)
    ensures var d := GenSubTopic(s, ModuleNames(outer));
      forall td :: td in d.topics ==> HandleResolves(td, outer + [d])
  {
    var d := GenSubTopic(s, ModuleNames(outer));
    var chain := outer + [d];
    assert ModuleNames(chain) == ModuleNames(outer) + [s.name];
    var topics := s.child.topics;
    forall td | td in d.topics
      ensures HandleResolves(td, chain)
    {
      var i :| 0 <= i < |d.topics| && d.topics[i] == td;
      assert ArmNames(d.topicsEnum)[i] == topics[i].name;
      LinkedSnoc(outer, d, topics[i].name);
      TopicHandleResolves(chain, topics[i]);
    }
  }

  /** The module of a sub-topic nested in a linked chain resolves all its fan-out values. */
  lemma {:induction false} GenSubTopicResolves(s: SubTopic, outer: seq<SubTopicDecl>)
    requires Linked(outer, s.name)
    ensures HandlesResolve(GenSubTopic(s, ModuleNames(outer)), outer)
    decreases s
  {
    var stack := ModuleNames(outer) + [s.name];
    var d := GenSubTopic(s, ModuleNames(outer));
    var chain := outer + [d];
    GenTopicsResolve(s, outer);
    assert ModuleNames(chain) == stack;
    var subs := s.child.subTopics;
    forall c | c in d.children
      ensures HandlesResolve(c, chain)
    {
      var i :| 0 <= i < |d.children| && d.children[i] == c;
      GenSubTopicIndex(subs, stack, i);
      assert ArmNames(d.topicsEnum)[|s.child.topics| + i] == subs[i].name;
      LinkedSnoc(outer, d, subs[i].name);
      assert subs[i] in s.child.subTopics;
      GenSubTopicResolves(subs[i], chain);
    }
  }

  /**
   * In the generated modules, every `publish` sends to each enclosing
   * sub-topic a value whose every constructor is an arm of the enum it
   * names.
   */
  lemma GeneratedHandlesResolve(ast: Node)
    ensures forall d :: d in GenSubTopics(ast.subTopics, []) ==> HandlesResolve(d, [])
  {
    forall d | d in GenSubTopics(ast.subTopics, [])
      ensures HandlesResolve(d, [])
    {
      var i :| 0 <= i < |ast.subTopics| && GenSubTopics(ast.subTopics, [])[i] == d;
      GenSubTopicIndex(ast.subTopics, [], i);
      assert ModuleNames([]) == [];
      GenSubTopicResolves(ast.subTopics[i], []);
    }
  }

  /** The crate's example: the channel of `SubTopic8` holds 30 + 1 + 40 + 1 messages. */
  lemma ExampleCapacity()
    ensures TotalCapacity(SubTopic("SubTopic8", "t2", Node(
              [Topic("Topic9", IdentPath("u8"), 30), Topic("Topic10", IdentPath("u16"), 1)],
              [SubTopic("SubTopic12", "t3", Node(
                 [Topic("Topic13", IdentPath("u8"), 40), Topic("Topic14", IdentPath("u16"), 1)], []))]))) == 72
  {
    var t12 := [Topic("Topic13", IdentPath("u8"), 40), Topic("Topic14", IdentPath("u16"), 1)];
    var s12 := SubTopic("SubTopic12", "t3", Node(t12, []));
    assert AllTopics(s12.child) == t12;
    assert AllTopicsOf([s12]) == t12;
    var t8 := [Topic("Topic9", IdentPath("u8"), 30), Topic("Topic10", IdentPath("u16"), 1)];
    assert AllTopics(Node(t8, [s12])) == t8 + t12;
    SumCapacitiesAppend(t8, t12);
    assert SumCapacities(t8) == 31 by { assert t8[..1] == [t8[0]]; }
    assert SumCapacities(t12) == 41 by { assert t12[..1] == [t12[0]]; }
  }
}
