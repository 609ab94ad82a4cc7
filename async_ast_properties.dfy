/**
 * What the `async-bus-macros` parser accepts and builds, against a printer
 * from surface declarations to tokens, and the rules in which it differs from
 * the newer parser: no capacity, unchecked generics, path-valued sub-topic
 * names.
 */
module AsyncAstProperties {
  import opened Wrappers
  import opened Tokens
  import opened AsyncAst

  /** An entry as written: `Head => Payload` or `module::Name => { body }`. */
  datatype Decl =
    | DeclTopic(head: Path, payload: Path)
    | DeclSubTopic(name: Path, body: seq<Decl>, trailingComma: bool)

  /** What the grammar allows: a one-segment topic head, a two-segment sub-topic path, no leading `::`. */
  predicate WellFormed(d: Decl)
    decreases d
  {
    match d
    case DeclTopic(h, p) => !h.leadingColon && |h.segments| == 1 && |p.segments| > 0
    case DeclSubTopic(n, body, _) => !n.leadingColon && |n.segments| == 2 && AllWellFormed(body)
  }

  predicate AllWellFormed(ds: seq<Decl>)
    decreases ds
  {
    forall i :: 0 <= i < |ds| ==> WellFormed(ds[i])
  }

  function RenderDecl(d: Decl): seq<Token>
    decreases d
  {
    match d
    case DeclTopic(h, p) => [PathTok(h), FatArrow, PathTok(p)]
    case DeclSubTopic(n, body, tr) => [PathTok(n), FatArrow, Brace(RenderDecls(body, tr))]
  }

  function RenderDecls(ds: seq<Decl>, trailing: bool): seq<Token>
    decreases ds
  {
    if |ds| == 0 then []
    else if |ds| == 1 then RenderDecl(ds[0]) + (if trailing then [Comma] else [])
    else RenderDecl(ds[0]) + [Comma] + RenderDecls(ds[1..], trailing)
  }

  /** A topic is named by its head's identifier, whatever generic arguments it carries; a sub-topic by its path. */
  function EntryOf(d: Decl): Entry
    requires WellFormed(d)
    decreases d
  {
    match d
    case DeclTopic(h, p) => TopicEntry(Topic(h.segments[0].ident, p))
    case DeclSubTopic(n, body, _) => SubTopicEntry(SubTopic(n, AbstractInto(body, [], [])))
  }

  function AbstractInto(ds: seq<Decl>, topics: seq<Topic>, subTopics: seq<SubTopic>): Node
    requires AllWellFormed(ds)
    decreases ds
  {
    if |ds| == 0 then Node(topics, subTopics)
    else
      var node := Add(topics, subTopics, EntryOf(ds[0]));
      assert forall i :: 0 <= i < |ds[1..]| ==> ds[1..][i] == ds[i + 1];
      AbstractInto(ds[1..], node.topics, node.subTopics)
  }

  // ---------------------------------------------------------------------------
  // The parser inverts the printer

  lemma {:induction false} ParseEntryOfRender(d: Decl, suffix: seq<Token>)
    requires WellFormed(d)
    ensures ParseEntry(RenderDecl(d) + suffix) == Ok((EntryOf(d), 3))
    decreases d, 0
  {
    match d
    case DeclTopic(h, p) =>
    case DeclSubTopic(n, body, tr) =>
      RoundTrip(body, tr, [], []);
  }

  lemma TailWellFormed(ds: seq<Decl>)
    requires |ds| > 0 && AllWellFormed(ds)
    ensures WellFormed(ds[0]) && AllWellFormed(ds[1..])
  {
    forall i | 0 <= i < |ds[1..]| ensures WellFormed(ds[1..][i]) {
      assert ds[1..][i] == ds[i + 1];
    }
  }

  /** Parsing a rendering gives back exactly what it declares. */
  lemma {:induction false} RoundTrip(ds: seq<Decl>, trailing: bool, topics: seq<Topic>, subTopics: seq<SubTopic>)
    requires AllWellFormed(ds)
    ensures ParseEntries(RenderDecls(ds, trailing), topics, subTopics) == Ok(AbstractInto(ds, topics, subTopics))
    decreases ds, 1
  {
    if |ds| > 0 {
      TailWellFormed(ds);
      var ts := RenderDecls(ds, trailing);
      var node := Add(topics, subTopics, EntryOf(ds[0]));
      if |ds| == 1 {
        var suffix: seq<Token> := if trailing then [Comma] else [];
        assert ts == RenderDecl(ds[0]) + suffix;
        ParseEntryOfRender(ds[0], suffix);
        if trailing {
          ParseEntriesStep(ts, topics, subTopics);
          assert ts[4..] == [];
        } else {
          ParseEntriesLast(ts, topics, subTopics);
        }
      } else {
        var suffix := [Comma] + RenderDecls(ds[1..], trailing);
        assert ts == RenderDecl(ds[0]) + suffix;
        ParseEntryOfRender(ds[0], suffix);
        ParseEntriesStep(ts, topics, subTopics);
        assert ts[4..] == RenderDecls(ds[1..], trailing);
        RoundTrip(ds[1..], trailing, node.topics, node.subTopics);
      }
    }
  }

  lemma ParseRendered(ds: seq<Decl>, trailing: bool)
    requires AllWellFormed(ds)
    ensures Parse(RenderDecls(ds, trailing)) == Ok(AbstractInto(ds, [], []))
  {
    RoundTrip(ds, trailing, [], []);
  }

  // ---------------------------------------------------------------------------
  // Rules of this variant

  /** An empty stream parses to an empty node. */
  lemma EmptyInput()
    ensures Parse([]) == Ok(Node([], []))
  {
  }

  /** A leading `::` is refused before `=>` is looked at. */
  lemma LeadingColonRejected(ts: seq<Token>)
    requires |ts| > 0 && IsPath(ts[0]) && ts[0].path.leadingColon
    ensures Parse(ts) == Err(LeadingColon)
  {
    assert ParseEntry(ts) == Err(LeadingColon);
    ParseEntriesErr(ts, [], []);
  }

  /** There is no capacity syntax: brackets where `=>` belongs are an error. */
  lemma CapacityRejected(p: Path, content: seq<Token>, rest: seq<Token>)
    requires |p.segments| > 0 && !p.leadingColon
    ensures Parse([PathTok(p), Bracket(content)] + rest) == Err(ExpectedFatArrow)
  {
    var ts := [PathTok(p), Bracket(content)] + rest;
    assert ParseEntry(ts) == Err(ExpectedFatArrow);
    ParseEntriesErr(ts, [], []);
  }

  /**
   * Generic arguments are not checked: a topic head with them parses, and the
   * topic is named by the bare identifier.
   */
  lemma GenericsIgnored(name: Ident, args: string, payload: Path)
    requires |payload.segments| > 0
    ensures Parse([PathTok(Path(false, [Segment(name, Arguments(args))])), FatArrow, PathTok(payload)])
         == Ok(Node([Topic(name, payload)], []))
  {
    var d := DeclTopic(Path(false, [Segment(name, Arguments(args))]), payload);
    assert RenderDecls([d], false) == [PathTok(Path(false, [Segment(name, Arguments(args))])), FatArrow, PathTok(payload)];
    ParseRendered([d], false);
    assert [d][1..] == [];
    assert EntryOf(d) == TopicEntry(Topic(name, payload));
    assert AbstractInto([d], [], []) == AbstractInto([], [Topic(name, payload)], []);
  }

  /** A sub-topic keeps its whole path as its name. */
  lemma SubTopicNamedByPath(p: Path)
    requires |p.segments| == 2 && !p.leadingColon
    ensures Parse([PathTok(p), FatArrow, Brace([])]) == Ok(Node([], [SubTopic(p, Node([], []))]))
  {
    var d := DeclSubTopic(p, [], false);
    assert RenderDecls([], false) == [] && AbstractInto([], [], []) == Node([], []);
    assert RenderDecls([d], false) == [PathTok(p), FatArrow, Brace([])];
    ParseRendered([d], false);
    assert [d][1..] == [];
    assert EntryOf(d) == SubTopicEntry(SubTopic(p, Node([], [])));
    assert AbstractInto([d], [], []) == AbstractInto([], [], [SubTopic(p, Node([], []))]);
  }

  /** Three or more segments is an unsupported form, once `=>` has been read. */
  lemma LongPathRejected(p: Path, rest: seq<Token>)
    requires !p.leadingColon && |p.segments| >= 3
    ensures Parse([PathTok(p), FatArrow] + rest) == Err(UnsupportedForm)
  {
    var ts := [PathTok(p), FatArrow] + rest;
    assert ParseEntry(ts) == Err(UnsupportedForm);
    ParseEntriesErr(ts, [], []);
  }

  /** Entries must be separated by commas. */
  lemma MissingCommaRejected(d: Decl, t: Token, rest: seq<Token>)
    requires WellFormed(d) && t != Comma
    ensures Parse(RenderDecl(d) + [t] + rest) == Err(ExpectedComma)
  {
    ParseEntryOfRender(d, [t] + rest);
    assert RenderDecl(d) + [t] + rest == RenderDecl(d) + ([t] + rest);
  }

  // ---------------------------------------------------------------------------
  // Source order

  function DeclaredTopics(ds: seq<Decl>): seq<Topic>
    requires AllWellFormed(ds)
  {
    if |ds| == 0 then []
    else
      assert forall i :: 0 <= i < |ds[1..]| ==> ds[1..][i] == ds[i + 1];
      (if ds[0].DeclTopic? then [EntryOf(ds[0]).topic] else []) + DeclaredTopics(ds[1..])
  }

  function DeclaredSubTopics(ds: seq<Decl>): seq<SubTopic>
    requires AllWellFormed(ds)
  {
    if |ds| == 0 then []
    else
      assert forall i :: 0 <= i < |ds[1..]| ==> ds[1..][i] == ds[i + 1];
      (if ds[0].DeclSubTopic? then [EntryOf(ds[0]).subTopic] else []) + DeclaredSubTopics(ds[1..])
  }

  /** Topics and sub-topics each keep their source order, however they interleave. */
  lemma {:induction false} AbstractKeepsOrder(ds: seq<Decl>, topics: seq<Topic>, subTopics: seq<SubTopic>)
    requires AllWellFormed(ds)
    ensures AbstractInto(ds, topics, subTopics) == Node(topics + DeclaredTopics(ds), subTopics + DeclaredSubTopics(ds))
  {
    if |ds| > 0 {
      TailWellFormed(ds);
      var node := Add(topics, subTopics, EntryOf(ds[0]));
      AbstractKeepsOrder(ds[1..], node.topics, node.subTopics);
    }
  }

  // ---------------------------------------------------------------------------
  // The crate's parser unit test

  function P(name: Ident): Token { PathTok(IdentPath(name)) }

  function T(name: Ident, payload: Path): Decl { DeclTopic(IdentPath(name), payload) }

  function LongerValue(): Path {
    Path(false, [Segment("inner", NoArguments), Segment("payload", NoArguments),
                 Segment("longer", NoArguments), Segment("Value", NoArguments)])
  }

  function InnermostTokens(): seq<Token> {
    [ P("Baz"), FatArrow, P("i32"), Comma,
      P("Shaz"), FatArrow, PathTok(LongerValue()), Comma,
      P("Fnaz"), FatArrow, P("i128"), Comma ]
  }

  function InnerTokens(): seq<Token> {
    [ P("Foo"), FatArrow, P("i16"), Comma,
      P("Bar"), FatArrow, P("u8"), Comma,
      P("Bar2"), FatArrow, P("i8"), Comma,
      PathTok(ModulePath("sub_topic2", "SubTopic2")), FatArrow, Brace(InnermostTokens()), Comma ]
  }

  function TestTokens(): seq<Token> {
    [ PathTok(ModulePath("sub_topic", "SubTopic")), FatArrow, Brace(InnerTokens()), Comma,
      P("SystemHealth"), FatArrow, P("String"), Comma,
      P("SomeData"), FatArrow, PathTok(ModulePath("some", "Data")), Comma ]
  }

  function InnermostDecls(): seq<Decl> {
    [T("Baz", IdentPath("i32")), T("Shaz", LongerValue()), T("Fnaz", IdentPath("i128"))]
  }

  function InnerDecls(): seq<Decl> {
    [ T("Foo", IdentPath("i16")), T("Bar", IdentPath("u8")), T("Bar2", IdentPath("i8")),
      DeclSubTopic(ModulePath("sub_topic2", "SubTopic2"), InnermostDecls(), true) ]
  }

  function TestDecls(): seq<Decl> {
    [ DeclSubTopic(ModulePath("sub_topic", "SubTopic"), InnerDecls(), true),
      T("SystemHealth", IdentPath("String")), T("SomeData", ModulePath("some", "Data")) ]
  }

  lemma RenderCons(ds: seq<Decl>)
    requires |ds| > 0
    ensures RenderDecls(ds, true) == RenderDecl(ds[0]) + [Comma] + RenderDecls(ds[1..], true)
  {
  }

  lemma RenderInnermost()
    ensures RenderDecls(InnermostDecls(), true) == InnermostTokens()
  {
    var ds := InnermostDecls();
    RenderCons(ds);
    RenderCons(ds[1..]);
    RenderCons(ds[2..]);
    assert ds[1..][1..] == ds[2..] && ds[2..][1..] == [];
  }

  lemma RenderInner()
    ensures RenderDecls(InnerDecls(), true) == InnerTokens()
  {
    var ds := InnerDecls();
    RenderCons(ds);
    RenderCons(ds[1..]);
    RenderCons(ds[2..]);
    RenderCons(ds[3..]);
    assert ds[1..][1..] == ds[2..] && ds[2..][1..] == ds[3..] && ds[3..][1..] == [];
    RenderInnermost();
  }

  lemma RenderTop()
    ensures RenderDecls(TestDecls(), true) == TestTokens()
  {
    var ds := TestDecls();
    RenderCons(ds);
    RenderCons(ds[1..]);
    RenderCons(ds[2..]);
    assert ds[1..][1..] == ds[2..] && ds[2..][1..] == [];
    RenderInner();
  }

  lemma TestWellFormed()
    ensures AllWellFormed(TestDecls())
  {
    assert AllWellFormed(InnermostDecls());
    assert AllWellFormed(InnerDecls()) by {
      assert WellFormed(InnerDecls()[3]);
    }
    assert WellFormed(TestDecls()[0]);
  }

  /** The tree the unit test expects, written out. */
  function InnermostTree(): Node {
    Node([Topic("Baz", IdentPath("i32")), Topic("Shaz", LongerValue()), Topic("Fnaz", IdentPath("i128"))], [])
  }

  function InnerTree(): Node {
    Node([Topic("Foo", IdentPath("i16")), Topic("Bar", IdentPath("u8")), Topic("Bar2", IdentPath("i8"))],
         [SubTopic(ModulePath("sub_topic2", "SubTopic2"), InnermostTree())])
  }

  function TestTree(): Node {
    Node([Topic("SystemHealth", IdentPath("String")), Topic("SomeData", ModulePath("some", "Data"))],
         [SubTopic(ModulePath("sub_topic", "SubTopic"), InnerTree())])
  }

  lemma InnermostAbstract()
    ensures AllWellFormed(InnermostDecls())
    ensures AbstractInto(InnermostDecls(), [], []) == InnermostTree()
  {
    var ds := InnermostDecls();
    assert AllWellFormed(ds);
    AbstractKeepsOrder(ds, [], []);
    assert ds[1..][1..] == ds[2..] && ds[2..][1..] == [];
    assert DeclaredTopics(ds[2..]) == [Topic("Fnaz", IdentPath("i128"))];
    assert DeclaredSubTopics(ds[1..]) == [];
  }

  lemma InnerAbstract()
    ensures AllWellFormed(InnerDecls())
    ensures AbstractInto(InnerDecls(), [], []) == InnerTree()
  {
    var ds := InnerDecls();
    InnermostAbstract();
    assert WellFormed(ds[3]);
    assert AllWellFormed(ds);
    AbstractKeepsOrder(ds, [], []);
    assert ds[1..][1..] == ds[2..] && ds[2..][1..] == ds[3..] && ds[3..][1..] == [];
    assert DeclaredTopics(ds[2..]) == [Topic("Bar2", IdentPath("i8"))];
    assert DeclaredSubTopics(ds[2..]) == [SubTopic(ModulePath("sub_topic2", "SubTopic2"), InnermostTree())];
  }

  lemma TestAbstract()
    ensures AllWellFormed(TestDecls())
    ensures AbstractInto(TestDecls(), [], []) == TestTree()
  {
    var ds := TestDecls();
    InnerAbstract();
    assert WellFormed(ds[0]);
    assert AllWellFormed(ds);
    AbstractKeepsOrder(ds, [], []);
    assert ds[1..][1..] == ds[2..] && ds[2..][1..] == [];
    assert DeclaredTopics(ds[1..]) == TestTree().topics;
    assert DeclaredSubTopics(ds[1..]) == [];
  }

  /**
   * The unit test's tree: 2 topics and 1 sub-topic, which has 3 topics and 1
   * sub-topic, which has 3 topics; every topic with the payload the test
   * looks it up by.
   */
  lemma TestTreeShape()
    ensures Parse(TestTokens()) == Ok(TestTree())
    ensures var n := Parse(TestTokens()).value;
      && |n.topics| == 2 && |n.subTopics| == 1
      && |n.subTopics[0].child.topics| == 3 && |n.subTopics[0].child.subTopics| == 1
      && |n.subTopics[0].child.subTopics[0].child.topics| == 3
      && |n.subTopics[0].child.subTopics[0].child.subTopics| == 0
  {
    RenderTop();
    TestWellFormed();
    ParseRendered(TestDecls(), true);
    TestAbstract();
  }

  // ---------------------------------------------------------------------------
  // The crate's UI fixtures

  /** `capacity_error.rs`: the first `[123]` inside the block already fails, where `=>` was expected. */
  lemma CapacityErrorFixture()
    ensures Parse([PathTok(ModulePath("bus", "Toplevel")), FatArrow,
                   Brace([P("SomeData1"), Bracket([IntLit(123)]), FatArrow, P("u32"), Comma,
                          P("SomeData2"), Bracket([IntLit(0)]), FatArrow, P("i32"), Comma]), Comma])
         == Err(ExpectedFatArrow)
  {
    var rest := [FatArrow, P("u32"), Comma, P("SomeData2"), Bracket([IntLit(0)]), FatArrow, P("i32"), Comma];
    var inner := [P("SomeData1"), Bracket([IntLit(123)])] + rest;
    CapacityRejected(IdentPath("SomeData1"), [IntLit(123)], rest);
    var ts := [PathTok(ModulePath("bus", "Toplevel")), FatArrow, Brace(inner), Comma];
    assert ParseEntry(ts) == Err(ExpectedFatArrow);
    ParseEntriesErr(ts, [], []);
  }

  /** `generic_subtopic.rs`: generic arguments on a sub-topic path are accepted and kept in its name. */
  lemma GenericSubTopicAccepted()
    ensures var p := Path(false, [Segment("sub", NoArguments), Segment("Topic", Arguments("<u32>"))]);
      Parse([PathTok(p), FatArrow, Brace([P("SomeData"), FatArrow, P("u32"), Comma]), Comma])
        == Ok(Node([], [SubTopic(p, Node([Topic("SomeData", IdentPath("u32"))], []))]))
  {
    var p := Path(false, [Segment("sub", NoArguments), Segment("Topic", Arguments("<u32>"))]);
    var body := [T("SomeData", IdentPath("u32"))];
    var d := DeclSubTopic(p, body, true);
    assert RenderDecls(body, true) == [P("SomeData"), FatArrow, P("u32"), Comma];
    assert RenderDecls([d], true) == [PathTok(p), FatArrow, Brace([P("SomeData"), FatArrow, P("u32"), Comma]), Comma];
    ParseRendered([d], true);
    AbstractKeepsOrder(body, [], []);
    assert body[1..] == [] && [d][1..] == [];
    assert AbstractInto(body, [], []) == Node([Topic("SomeData", IdentPath("u32"))], []);
    assert EntryOf(d) == SubTopicEntry(SubTopic(p, Node([Topic("SomeData", IdentPath("u32"))], [])));
    assert AbstractInto([d], [], []) == AbstractInto([], [], [SubTopic(p, Node([Topic("SomeData", IdentPath("u32"))], []))]);
  }
}
