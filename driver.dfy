/**
 * The `make_message_bus!` procedural macro as a pipeline: parse the token
 * stream, analyze the tree, generate the declarations. A parse error or an
 * analysis error ends the expansion with that error.
 */
module Driver {
  import opened Wrappers
  import opened Tokens
  import opened Ast
  import opened AstProperties
  import opened Analysis
  import opened Codegen
  import opened Uniqueness

  datatype MacroError = ParseFailed(parseError: ParseError) | AnalysisFailed(errors: seq<AnalysisError>)

  /** What the macro expands a token stream to. */
  function Expand(ts: seq<Token>): Result<seq<SubTopicDecl>, MacroError> {
    match Parse(ts)
    case Err(e) => Err(ParseFailed(e))
    case Ok(ast) =>
      var errors := AnalysisErrors(ast);
      if errors != [] then Err(AnalysisFailed([errors[0]] + errors))
      else Ok(GenSubTopics(ast.subTopics, []))
  }

  /** `make_message_bus`: each stage runs only when the previous one succeeded. */
  method MakeMessageBus(ts: seq<Token>) returns (r: Result<seq<SubTopicDecl>, MacroError>)
    ensures r == Expand(ts)
  {
    var ast := ParseAstNodes(ts);
    if ast.Err? {
      return Err(ParseFailed(ast.error));
    }
    var analysis := Analyze(ast.value);
    if analysis.Err? {
      return Err(AnalysisFailed(analysis.error));
    }
    var decls := Generate(ast.value);
    return Ok(decls);
  }

  /**
   * An accepted expansion has at most one module at the root; it is not
   * re-exported, every module inside it is, and its channel holds at least
   * one message per topic of the whole tree.
   */
  lemma AcceptedExpansion(ts: seq<Token>)
    requires Expand(ts).Ok?
    ensures var decls := Expand(ts).value;
      && |decls| <= 1
      && (forall d :: d in decls ==> !d.reexport && AllReexported(d.children))
      && (|decls| == 1 ==> decls[0].capacity >= |AllTopics(Parse(ts).value)|)
  {
    var ast := Parse(ts).value;
    AnalyzeAcceptsIff(ast);
    GenerateReexports(ast);
    if |ast.subTopics| == 1 {
      var st := ast.subTopics[0];
      assert ast.subTopics[..0] == [] && ast.topics == [];
      assert AllTopicsOf(ast.subTopics) == AllTopicsOf([]) + AllTopics(st.child);
      assert AllTopics(ast) == AllTopics(st.child);
      ParsedCapacitiesPositive(ts);
      ZeroCapacityIffNoTopics(st);
      GenSubTopicIndex(ast.subTopics, [], 0);
    }
  }

  /**
   * A root sub-topic with an empty block is accepted, and its channel gets
   * capacity 0. The module compiles, but subscribing to it panics at run
   * time: tokio refuses a zero capacity when the channel is first used
   * (see `MessageBus.Topic.Subscribe`).
   */
  lemma EmptyRootExpansion(m: Ident, name: Ident)
    ensures Expand([PathTok(ModulePath(m, name)), FatArrow, Brace([])])
         == Ok([SubTopicDecl(false, m, name, 0, EnumDecl(name, []), [], [])])
  {
    EmptyBlocks(m, name);
    var st := SubTopic(name, m, Node([], []));
    assert AllTopics(st.child) == [] && TotalCapacity(st) == 0;
    assert SubTopicErrors([st]) == SubTopicErrors([]) + NodeErrors(st.child) by {
      assert [st][..0] == [];
    }
    assert NodeErrors(st.child) == [] by {
      assert TopicErrors([]) == [];
    }
    assert AnalysisErrors(Node([], [st])) == [];
    assert MakeTopicsEnum(name, [], []) == EnumDecl(name, []);
    assert GenSubTopic(st, []) == SubTopicDecl(false, m, name, 0, EnumDecl(name, []), [], []);
    assert GenSubTopics([st], []) == [GenSubTopic(st, [])] by {
      assert [st][..0] == [];
    }
  }

  /**
   * In a block the analysis accepts, the arms of the generated enum are
   * distinct exactly when no topic shares its name with a sub-topic of the
   * same block: the analysis compares topic names and sub-topic names only
   * among themselves.
   */
  lemma EnumArmsDistinct(name: Ident, n: Node)
    requires WellScoped(n)
    ensures Distinct(ArmNames(MakeTopicsEnum(name, n.topics, n.subTopics)))
        <==> forall i, j :: 0 <= i < |n.topics| && 0 <= j < |n.subTopics| ==> n.topics[i].name != n.subTopics[j].name
  {
    assert ArmNames(MakeTopicsEnum(name, n.topics, n.subTopics)) == TopicNames(n.topics) + SubTopicNames(n.subTopics);
    DistinctAppend(TopicNames(n.topics), SubTopicNames(n.subTopics));
  }

  /**
   * `m::S => { X => u8, n::X => {} }` passes the analysis, yet the enum
   * generated for `S` has two arms named `X`, which Rust refuses to compile.
   */
  lemma SharedNameAccepted()
    ensures var ast := Node([], [SubTopic("S", "m", Node([Topic("X", IdentPath("u8"), 1)], [SubTopic("X", "n", Node([], []))]))]);
      && AnalysisErrors(ast) == []
      && ArmNames(GenSubTopics(ast.subTopics, [])[0].topicsEnum) == ["X", "X"]
  {
    var inner := Node([Topic("X", IdentPath("u8"), 1)], [SubTopic("X", "n", Node([], []))]);
    var ast := Node([], [SubTopic("S", "m", inner)]);
    assert WellScoped(inner);
    AnalyzeAcceptsIff(ast);
    GenSubTopicIndex(ast.subTopics, [], 0);
    assert ArmNames(MakeTopicsEnum("S", inner.topics, inner.subTopics)) == ["X", "X"];
  }
}
