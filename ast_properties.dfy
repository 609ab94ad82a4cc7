/**
 * What the `message-bus-macros` parser accepts and builds. The grammar is
 * given independently of the parser as a printer from surface declarations to
 * tokens; the parser is shown to invert it exactly (every rendering parses to
 * its abstraction, and every accepted stream is a rendering). The remaining
 * lemmas pin down the error cases and the defaults.
 */
module AstProperties {
  import opened Wrappers
  import opened Tokens
  import opened Ast

  // ---------------------------------------------------------------------------
  // Surface syntax and its rendering

  /** An entry as written: `Name [cap]? => Payload` or `module::Name [cap]? => { body }`. */
  datatype Decl =
    | DeclTopic(name: Ident, capacity: Option<nat>, payload: Path)
    | DeclSubTopic(moduleName: Ident, name: Ident, capacity: Option<nat>, body: seq<Decl>, trailingComma: bool)

  predicate ValidCapacity(c: Option<nat>) {
    c.None? || 1 <= c.value <= USIZE_MAX
  }

  /** Declarations the grammar allows: capacities in range and non-empty payload paths. */
  predicate WellFormed(d: Decl)
    decreases d
  {
    match d
    case DeclTopic(_, c, p) => ValidCapacity(c) && |p.segments| > 0
    case DeclSubTopic(_, _, c, body, _) => ValidCapacity(c) && AllWellFormed(body)
  }

  predicate AllWellFormed(ds: seq<Decl>)
    decreases ds
  {
    forall i :: 0 <= i < |ds| ==> WellFormed(ds[i])
  }

  function CapacityTokens(c: Option<nat>): seq<Token> {
    if c.None? then [] else [Bracket([IntLit(c.value)])]
  }

  function RenderDecl(d: Decl): seq<Token>
    decreases d
  {
    match d
    case DeclTopic(name, c, p) =>
      [PathTok(IdentPath(name))] + CapacityTokens(c) + [FatArrow, PathTok(p)]
    case DeclSubTopic(m, name, c, body, tr) =>
      [PathTok(ModulePath(m, name))] + CapacityTokens(c) + [FatArrow, Brace(RenderDecls(body, tr))]
  }

  /** Entries separated by commas, with a comma after the last one when `trailing`. */
  function RenderDecls(ds: seq<Decl>, trailing: bool): seq<Token>
    decreases ds
  {
    if |ds| == 0 then []
    else if |ds| == 1 then RenderDecl(ds[0]) + (if trailing then [Comma] else [])
    else RenderDecl(ds[0]) + [Comma] + RenderDecls(ds[1..], trailing)
  }

  // ---------------------------------------------------------------------------
  // What the declarations mean

  function EntryOf(d: Decl): Entry
    decreases d
  {
    match d
    case DeclTopic(name, c, p) => TopicEntry(Topic(name, p, if c.None? then 1 else c.value))
    case DeclSubTopic(m, name, _, body, _) => SubTopicEntry(SubTopic(name, m, AbstractInto(body, [], [])))
  }

  /** The node the declarations describe, appended to `topics` and `subTopics`. */
  function AbstractInto(ds: seq<Decl>, topics: seq<Topic>, subTopics: seq<SubTopic>): Node
    decreases ds
  {
    if |ds| == 0 then Node(topics, subTopics)
    else
      var node := Add(topics, subTopics, EntryOf(ds[0]));
      AbstractInto(ds[1..], node.topics, node.subTopics)
  }

  // ---------------------------------------------------------------------------
  // The parser inverts the printer

  /** A rendered capacity, followed by `=>`, is read back with the default filled in. */
  lemma CapacityOfRender(c: Option<nat>, rest: seq<Token>)
    requires ValidCapacity(c) && |rest| > 0 && rest[0] == FatArrow
    ensures ParseCapacity(CapacityTokens(c) + rest) == Ok((if c.None? then 1 else c.value, |CapacityTokens(c)|))
  {
    if c.Some? {
      assert (CapacityTokens(c) + rest)[0] == Bracket([IntLit(c.value)]);
    } else {
      assert CapacityTokens(c) + rest == rest;
    }
  }

  /** A rendered topic entry is read back whatever follows it. */
  lemma TopicOfRender(d: Decl, suffix: seq<Token>)
    requires d.DeclTopic? && WellFormed(d)
    ensures ParseEntry(RenderDecl(d) + suffix) == Ok((EntryOf(d), |RenderDecl(d)|))
  {
    var ts := RenderDecl(d) + suffix;
    var tail := [FatArrow, PathTok(d.payload)] + suffix;
    var k := 1 + |CapacityTokens(d.capacity)|;
    assert ts == [PathTok(IdentPath(d.name))] + CapacityTokens(d.capacity) + tail;
    assert ts[0] == PathTok(IdentPath(d.name));
    assert !HasGenerics(IdentPath(d.name));
    assert ts[1..] == CapacityTokens(d.capacity) + tail;
    CapacityOfRender(d.capacity, tail);
    assert ts[k] == FatArrow && ts[k + 1] == PathTok(d.payload);
  }

  /** A rendered sub-topic entry whose body reads back is read back whatever follows it. */
  lemma SubTopicOfRender(d: Decl, suffix: seq<Token>)
    requires d.DeclSubTopic? && ValidCapacity(d.capacity)
    requires ParseEntries(RenderDecls(d.body, d.trailingComma), [], []) == Ok(AbstractInto(d.body, [], []))
    ensures ParseEntry(RenderDecl(d) + suffix) == Ok((EntryOf(d), |RenderDecl(d)|))
  {
    var ts := RenderDecl(d) + suffix;
    var block := Brace(RenderDecls(d.body, d.trailingComma));
    var tail := [FatArrow, block] + suffix;
    var k := 1 + |CapacityTokens(d.capacity)|;
    assert ts == [PathTok(ModulePath(d.moduleName, d.name))] + CapacityTokens(d.capacity) + tail;
    assert ts[0] == PathTok(ModulePath(d.moduleName, d.name));
    assert !HasGenerics(ModulePath(d.moduleName, d.name));
    assert ts[1..] == CapacityTokens(d.capacity) + tail;
    CapacityOfRender(d.capacity, tail);
    assert ts[k] == FatArrow && ts[k + 1] == block;
  }

  /** A well-formed entry is read back whatever follows it. */
  lemma {:induction false} ParseEntryOfRender(d: Decl, suffix: seq<Token>)
    requires WellFormed(d)
    ensures ParseEntry(RenderDecl(d) + suffix) == Ok((EntryOf(d), |RenderDecl(d)|))
    decreases d, 0
  {
    if d.DeclTopic? {
      TopicOfRender(d, suffix);
    } else {
      RoundTrip(d.body, d.trailingComma, [], []);
      SubTopicOfRender(d, suffix);
    }
  }

  lemma TailWellFormed(ds: seq<Decl>)
    requires |ds| > 0 && AllWellFormed(ds)
    ensures WellFormed(ds[0]) && AllWellFormed(ds[1..])
  {
    forall i | 0 <= i < |ds[1..]| ensures WellFormed(ds[1..][i]) {
      assert ds[1..][i] == ds[i + 1];
    }
  }

  /** The last entry, with or without its trailing comma. */
  lemma RoundTripLast(d: Decl, trailing: bool, topics: seq<Topic>, subTopics: seq<SubTopic>)
    requires WellFormed(d)
    ensures ParseEntries(RenderDecls([d], trailing), topics, subTopics) == Ok(Add(topics, subTopics, EntryOf(d)))
    decreases d, 1
  {
    var ts := RenderDecls([d], trailing);
    var head := RenderDecl(d);
    var suffix: seq<Token> := if trailing then [Comma] else [];
    assert ts == head + suffix;
    ParseEntryOfRender(d, suffix);
    if trailing {
      ParseEntriesStep(ts, topics, subTopics);
      assert ts[|head| + 1..] == [];
    } else {
      ParseEntriesLast(ts, topics, subTopics);
    }
  }

  /** A non-last entry: the comma after it hands over to the rest. */
  lemma RoundTripStep(ds: seq<Decl>, trailing: bool, topics: seq<Topic>, subTopics: seq<SubTopic>)
    requires |ds| > 1 && WellFormed(ds[0])
    ensures var node := Add(topics, subTopics, EntryOf(ds[0]));
      ParseEntries(RenderDecls(ds, trailing), topics, subTopics)
        == ParseEntries(RenderDecls(ds[1..], trailing), node.topics, node.subTopics)
    decreases ds, 1
  {
    var ts := RenderDecls(ds, trailing);
    var head := RenderDecl(ds[0]);
    var suffix := [Comma] + RenderDecls(ds[1..], trailing);
    assert ts == head + suffix;
    ParseEntryOfRender(ds[0], suffix);
    ParseEntriesStep(ts, topics, subTopics);
    assert ts[|head| + 1..] == RenderDecls(ds[1..], trailing);
  }

  /** Parsing a rendering gives back exactly what it declares. */
  lemma {:induction false} RoundTrip(ds: seq<Decl>, trailing: bool, topics: seq<Topic>, subTopics: seq<SubTopic>)
    requires AllWellFormed(ds)
    ensures ParseEntries(RenderDecls(ds, trailing), topics, subTopics) == Ok(AbstractInto(ds, topics, subTopics))
    decreases ds, 2
  {
    if |ds| > 0 {
      TailWellFormed(ds);
      var node := Add(topics, subTopics, EntryOf(ds[0]));
      assert AbstractInto(ds, topics, subTopics) == AbstractInto(ds[1..], node.topics, node.subTopics);
      if |ds| == 1 {
        assert ds == [ds[0]];
        RoundTripLast(ds[0], trailing, topics, subTopics);
      } else {
        RoundTripStep(ds, trailing, topics, subTopics);
        RoundTrip(ds[1..], trailing, node.topics, node.subTopics);
      }
    }
  }

  /** Parsing a whole rendered stream (`Ast::parse`). */
  lemma ParseRendered(ds: seq<Decl>, trailing: bool)
    requires AllWellFormed(ds)
    ensures Parse(RenderDecls(ds, trailing)) == Ok(AbstractInto(ds, [], []))
  {
    RoundTrip(ds, trailing, [], []);
  }

  /** An accepted entry is the rendering of a well-formed declaration. */
  lemma {:induction false} EntryIsRendered(ts: seq<Token>) returns (d: Decl)
    requires |ts| > 0 && ParseEntry(ts).Ok?
    ensures WellFormed(d)
    ensures ts[..ParseEntry(ts).value.1] == RenderDecl(d)
    ensures ParseEntry(ts).value.0 == EntryOf(d)
    decreases ts, 0
  {
    var path := ts[0].path;
    var (capacity, used) := ParseCapacity(ts[1..]).value;
    var c: Option<nat> := if used == 0 then None else Some(capacity);
    assert CapacityTokens(c) == ts[1..1 + used] by {
      if used == 1 {
        var content := ts[1].content;
        assert content == [IntLit(content[0].value)];
      }
    }
    var k := 1 + used;
    assert forall m :: 0 <= m < |path.segments| ==> path.segments[m].arguments == NoArguments;
    if |path.segments| == 1 {
      assert path == IdentPath(path.segments[0].ident);
      d := DeclTopic(path.segments[0].ident, c, ts[k + 1].path);
      assert ts[..k + 2] == [ts[0]] + ts[1..1 + used] + [ts[k], ts[k + 1]];
    } else {
      assert |path.segments| == 2;
      assert path == ModulePath(path.segments[0].ident, path.segments[1].ident);
      var body, tr := ParsedIsRendered(ts[k + 1].content, [], []);
      d := DeclSubTopic(path.segments[0].ident, path.segments[1].ident, c, body, tr);
      assert ts[..k + 2] == [ts[0]] + ts[1..1 + used] + [ts[k], ts[k + 1]];
    }
  }

  lemma SingleRendered(d: Decl, trailing: bool, topics: seq<Topic>, subTopics: seq<SubTopic>)
    requires WellFormed(d)
    ensures AllWellFormed([d])
    ensures RenderDecls([d], trailing) == RenderDecl(d) + (if trailing then [Comma] else [])
    ensures AbstractInto([d], topics, subTopics) == Add(topics, subTopics, EntryOf(d))
  {
    assert [d][1..] == [];
  }

  lemma ConsRendered(d: Decl, more: seq<Decl>, trailing: bool, topics: seq<Topic>, subTopics: seq<SubTopic>)
    requires WellFormed(d) && AllWellFormed(more) && |more| > 0
    ensures AllWellFormed([d] + more)
    ensures RenderDecls([d] + more, trailing) == RenderDecl(d) + [Comma] + RenderDecls(more, trailing)
    ensures var node := Add(topics, subTopics, EntryOf(d));
      AbstractInto([d] + more, topics, subTopics) == AbstractInto(more, node.topics, node.subTopics)
  {
    assert ([d] + more)[1..] == more;
  }

  /** Every accepted stream is the rendering of well-formed declarations, and means what they declare. */
  lemma {:induction false} ParsedIsRendered(ts: seq<Token>, topics: seq<Topic>, subTopics: seq<SubTopic>)
    returns (ds: seq<Decl>, trailing: bool)
    requires ParseEntries(ts, topics, subTopics).Ok?
    ensures AllWellFormed(ds)
    ensures ts == RenderDecls(ds, trailing)
    ensures ParseEntries(ts, topics, subTopics).value == AbstractInto(ds, topics, subTopics)
    decreases ts, 1
  {
    if |ts| == 0 {
      ds, trailing := [], false;
    } else {
      var (entry, n) := ParseEntry(ts).value;
      var d := EntryIsRendered(ts);
      var node := Add(topics, subTopics, entry);
      assert ts == ts[..n] + ts[n..];
      if n == |ts| {
        ds, trailing := [d], false;
        SingleRendered(d, false, topics, subTopics);
      } else {
        var rest := ts[n + 1..];
        assert ts == ts[..n] + [Comma] + rest;
        ParseEntriesStep(ts, topics, subTopics);
        if |rest| == 0 {
          ds, trailing := [d], true;
          SingleRendered(d, true, topics, subTopics);
        } else {
          var more, tr := ParsedIsRendered(rest, node.topics, node.subTopics);
          assert |more| > 0;
          ds, trailing := [d] + more, tr;
          ConsRendered(d, more, tr, topics, subTopics);
        }
      }
    }
  }

  /** The parser accepts exactly the renderings of well-formed declarations. */
  lemma AcceptedIffRendered(ts: seq<Token>)
    ensures Parse(ts).Ok? <==> exists ds, tr :: AllWellFormed(ds) && ts == RenderDecls(ds, tr)
    ensures forall ds, tr :: AllWellFormed(ds) && ts == RenderDecls(ds, tr) ==> Parse(ts) == Ok(AbstractInto(ds, [], []))
  {
    if Parse(ts).Ok? {
      var ds, tr := ParsedIsRendered(ts, [], []);
    }
    forall ds, tr | AllWellFormed(ds) && ts == RenderDecls(ds, tr)
      ensures Parse(ts) == Ok(AbstractInto(ds, [], []))
    {
      ParseRendered(ds, tr);
    }
  }
  // ---------------------------------------------------------------------------
  // Errors stop the parse; nothing partial survives

  /** A well-formed entry and its comma are consumed; what follows decides the result. */
  lemma {:induction false} RenderedPrefix(ds: seq<Decl>, rest: seq<Token>, topics: seq<Topic>, subTopics: seq<SubTopic>)
    requires |ds| > 0 && AllWellFormed(ds)
    ensures var node := AbstractInto(ds, topics, subTopics);
      ParseEntries(RenderDecls(ds, true) + rest, topics, subTopics) == ParseEntries(rest, node.topics, node.subTopics)
    decreases ds
  {
    TailWellFormed(ds);
    var ts := RenderDecls(ds, true) + rest;
    var head := RenderDecl(ds[0]);
    var node := Add(topics, subTopics, EntryOf(ds[0]));
    var after := if |ds| == 1 then rest else RenderDecls(ds[1..], true) + rest;
    assert ts == head + ([Comma] + after);
    ParseEntryOfRender(ds[0], [Comma] + after);
    ParseEntriesStep(ts, topics, subTopics);
    assert ts[|head| + 1..] == after;
    if |ds| > 1 {
      RenderedPrefix(ds[1..], rest, node.topics, node.subTopics);
    } else {
      assert ds[1..] == [];
    }
  }

  /** The error a stream fails with does not depend on what was parsed before it. */
  lemma {:induction false} ErrorIgnoresEarlierEntries(ts: seq<Token>, topics: seq<Topic>, subTopics: seq<SubTopic>,
                                                      topics': seq<Topic>, subTopics': seq<SubTopic>)
    requires ParseEntries(ts, topics, subTopics).Err?
    ensures ParseEntries(ts, topics', subTopics') == ParseEntries(ts, topics, subTopics)
    decreases ts
  {
    if |ts| > 0 && ParseEntry(ts).Ok? {
      var (entry, n) := ParseEntry(ts).value;
      if n < |ts| && ts[n] == Comma {
        var node := Add(topics, subTopics, entry);
        var node' := Add(topics', subTopics', entry);
        ErrorIgnoresEarlierEntries(ts[n + 1..], node.topics, node.subTopics, node'.topics, node'.subTopics);
      }
    }
  }

  /** A bad entry after well-formed ones fails the whole parse with its own error. */
  lemma FirstErrorWins(ds: seq<Decl>, rest: seq<Token>)
    requires |ds| > 0 && AllWellFormed(ds) && Parse(rest).Err?
    ensures Parse(RenderDecls(ds, true) + rest) == Parse(rest)
  {
    var node := AbstractInto(ds, [], []);
    RenderedPrefix(ds, rest, [], []);
    ErrorIgnoresEarlierEntries(rest, [], [], node.topics, node.subTopics);
  }

  /** A leading `::` is refused before anything after the path is looked at. */
  lemma LeadingColonRejected(ts: seq<Token>)
    requires |ts| > 0 && IsPath(ts[0]) && ts[0].path.leadingColon
    ensures Parse(ts) == Err(LeadingColon)
  {
    assert ParseEntry(ts) == Err(LeadingColon);
    ParseEntriesErr(ts, [], []);
  }

  /** Generic arguments on any head segment are refused before capacity or `=>`. */
  lemma GenericsRejected(ts: seq<Token>)
    requires |ts| > 0 && IsPath(ts[0]) && !ts[0].path.leadingColon && HasGenerics(ts[0].path)
    ensures Parse(ts) == Err(GenericArguments)
  {
    assert ParseEntry(ts) == Err(GenericArguments);
    ParseEntriesErr(ts, [], []);
  }

  /**
   * The same refusal one level down (`generic_subtopic.rs`): a sub-topic block
   * whose first entry carries generic arguments fails the whole stream.
   */
  lemma NestedGenericsRejected(m: Ident, name: Ident, inner: seq<Token>, rest: seq<Token>)
    requires |inner| > 0 && IsPath(inner[0]) && !inner[0].path.leadingColon && HasGenerics(inner[0].path)
    ensures Parse([PathTok(ModulePath(m, name)), FatArrow, Brace(inner)] + rest) == Err(GenericArguments)
  {
    GenericsRejected(inner);
    var ts := [PathTok(ModulePath(m, name)), FatArrow, Brace(inner)] + rest;
    assert !HasGenerics(ModulePath(m, name));
    assert ts[1..] == [FatArrow, Brace(inner)] + rest;
    assert ParseEntry(ts) == Err(GenericArguments);
    ParseEntriesErr(ts, [], []);
  }

  /** Paths without generics or a leading `::` */
  predicate PlainPath(p: Path) {
    |p.segments| > 0 && !p.leadingColon && !HasGenerics(p)
  }

  /** An explicit capacity of 0 is refused. */
  lemma ZeroCapacityRejected(p: Path, rest: seq<Token>)
    requires PlainPath(p)
    ensures Parse([PathTok(p), Bracket([IntLit(0)])] + rest) == Err(ZeroCapacity)
  {
    var ts := [PathTok(p), Bracket([IntLit(0)])] + rest;
    assert ts[1..] == [Bracket([IntLit(0)])] + rest;
    assert ParseEntry(ts) == Err(ZeroCapacity);
    ParseEntriesErr(ts, [], []);
  }

  /** Without brackets a topic gets capacity 1. */
  lemma DefaultCapacity(name: Ident, payload: Path, rest: seq<Token>)
    requires |payload.segments| > 0
    ensures ParseEntry([PathTok(IdentPath(name)), FatArrow, PathTok(payload)] + rest)
         == Ok((TopicEntry(Topic(name, payload, 1)), 3))
  {
    ParseEntryOfRender(DeclTopic(name, None, payload), rest);
  }

  /** Three or more segments is an unsupported form, once `=>` has been read. */
  lemma LongPathRejected(p: Path, rest: seq<Token>)
    requires PlainPath(p) && |p.segments| >= 3
    ensures Parse([PathTok(p), FatArrow] + rest) == Err(UnsupportedForm)
  {
    var ts := [PathTok(p), FatArrow] + rest;
    assert ts[1..] == [FatArrow] + rest;
    assert ParseEntry(ts) == Err(UnsupportedForm);
    ParseEntriesErr(ts, [], []);
  }

  /** Entries must be separated by commas. */
  lemma MissingCommaRejected(d: Decl, t: Token, rest: seq<Token>)
    requires WellFormed(d) && t != Comma
    ensures Parse(RenderDecl(d) + [t] + rest) == Err(ExpectedComma)
  {
    ParseEntryOfRender(d, [t] + rest);
    assert RenderDecl(d) + [t] + rest == RenderDecl(d) + ([t] + rest);
  }

  /** A capacity written on a sub-topic is checked and then dropped. */
  lemma SubTopicCapacityDiscarded(m: Ident, name: Ident, c: nat, body: seq<Token>, rest: seq<Token>)
    requires 1 <= c <= USIZE_MAX
    ensures Parse([PathTok(ModulePath(m, name)), Bracket([IntLit(c)]), FatArrow, Brace(body)] + rest)
         == Parse([PathTok(ModulePath(m, name)), FatArrow, Brace(body)] + rest)
  {
    var with := [PathTok(ModulePath(m, name)), Bracket([IntLit(c)]), FatArrow, Brace(body)] + rest;
    var without := [PathTok(ModulePath(m, name)), FatArrow, Brace(body)] + rest;
    assert !HasGenerics(ModulePath(m, name));
    assert with[1..] == [Bracket([IntLit(c)]), FatArrow, Brace(body)] + rest;
    assert without[1..] == [FatArrow, Brace(body)] + rest;
    assert with[4..] == rest && without[3..] == rest;
    var child := ParseEntries(body, [], []);
    if child.Err? {
      assert ParseEntry(with) == Err(child.error) == ParseEntry(without);
      ParseEntriesErr(with, [], []);
      ParseEntriesErr(without, [], []);
    } else {
      var e := SubTopicEntry(SubTopic(name, m, child.value));
      assert ParseEntry(with) == Ok((e, 4));
      assert ParseEntry(without) == Ok((e, 3));
      if |rest| == 0 {
        ParseEntriesLast(with, [], []);
        ParseEntriesLast(without, [], []);
      } else if rest[0] != Comma {
        ParseEntriesNoComma(with, [], []);
        ParseEntriesNoComma(without, [], []);
      } else {
        ParseEntriesStep(with, [], []);
        ParseEntriesStep(without, [], []);
        assert with[5..] == rest[1..] && without[4..] == rest[1..];
      }
    }
  }

  /** An empty stream, and an empty braced block, give a node with nothing in it. */
  lemma EmptyBlocks(m: Ident, name: Ident)
    ensures Parse([]) == Ok(Node([], []))
    ensures Parse([PathTok(ModulePath(m, name)), FatArrow, Brace([])]) == Ok(Node([], [SubTopic(name, m, Node([], []))]))
  {
    var d := DeclSubTopic(m, name, None, [], false);
    assert RenderDecls([], false) == [] && CapacityTokens(None) == [];
    assert RenderDecls([d], false) == [PathTok(ModulePath(m, name)), FatArrow, Brace([])];
    ParseRendered([d], false);
    assert AbstractInto([], [], []) == Node([], []);
    assert AbstractInto([d], [], []) == AbstractInto([], [], [SubTopic(name, m, Node([], []))]);
  }
  // ---------------------------------------------------------------------------
  // Capacities

  lemma AllTopicsAdd(topics: seq<Topic>, subTopics: seq<SubTopic>, e: Entry)
    ensures e.TopicEntry? ==> AllTopics(Add(topics, subTopics, e)) == topics + [e.topic] + AllTopicsOf(subTopics)
    ensures e.SubTopicEntry? ==>
      AllTopics(Add(topics, subTopics, e)) == topics + AllTopicsOf(subTopics) + AllTopics(e.subTopic.child)
  {
    if e.SubTopicEntry? {
      var subs := subTopics + [e.subTopic];
      assert subs[..|subs| - 1] == subTopics;
    }
  }

  lemma {:induction false} EntryCapacitiesPositive(d: Decl)
    requires WellFormed(d)
    ensures EntryOf(d).TopicEntry? ==> EntryOf(d).topic.capacity >= 1
    ensures EntryOf(d).SubTopicEntry? ==> PositiveCapacities(EntryOf(d).subTopic.child)
    decreases d, 0
  {
    if d.DeclSubTopic? {
      assert PositiveCapacities(Node([], []));
      AbstractCapacitiesPositive(d.body, [], []);
    }
  }

  lemma {:induction false} AbstractCapacitiesPositive(ds: seq<Decl>, topics: seq<Topic>, subTopics: seq<SubTopic>)
    requires AllWellFormed(ds) && PositiveCapacities(Node(topics, subTopics))
    ensures PositiveCapacities(AbstractInto(ds, topics, subTopics))
    decreases ds, 1
  {
    if |ds| > 0 {
      TailWellFormed(ds);
      var e := EntryOf(ds[0]);
      var node := Add(topics, subTopics, e);
      EntryCapacitiesPositive(ds[0]);
      AllTopicsAdd(topics, subTopics, e);
      assert node == Node(node.topics, node.subTopics);
      AbstractCapacitiesPositive(ds[1..], node.topics, node.subTopics);
    }
  }

  /** Every topic of a parsed tree, at any depth, has capacity at least 1. */
  lemma ParsedCapacitiesPositive(ts: seq<Token>)
    requires Parse(ts).Ok?
    ensures PositiveCapacities(Parse(ts).value)
  {
    var ds, tr := ParsedIsRendered(ts, [], []);
    assert PositiveCapacities(Node([], []));
    AbstractCapacitiesPositive(ds, [], []);
  }

  // ---------------------------------------------------------------------------
  // Source order

  /** The topics the declarations declare directly, in order. */
  function DeclaredTopics(ds: seq<Decl>): seq<Topic> {
    if |ds| == 0 then []
    else (if ds[0].DeclTopic? then [EntryOf(ds[0]).topic] else []) + DeclaredTopics(ds[1..])
  }

  /** The sub-topics the declarations declare directly, in order. */
  function DeclaredSubTopics(ds: seq<Decl>): seq<SubTopic> {
    if |ds| == 0 then []
    else (if ds[0].DeclSubTopic? then [EntryOf(ds[0]).subTopic] else []) + DeclaredSubTopics(ds[1..])
  }

  /** Topics and sub-topics each keep their source order, however they interleave. */
  lemma {:induction false} AbstractKeepsOrder(ds: seq<Decl>, topics: seq<Topic>, subTopics: seq<SubTopic>)
    ensures AbstractInto(ds, topics, subTopics) == Node(topics + DeclaredTopics(ds), subTopics + DeclaredSubTopics(ds))
  {
    if |ds| > 0 {
      var node := Add(topics, subTopics, EntryOf(ds[0]));
      AbstractKeepsOrder(ds[1..], node.topics, node.subTopics);
    }
  }

  // ---------------------------------------------------------------------------
  // The crate's parser unit test

  function P(name: Ident): Token { PathTok(IdentPath(name)) }

  function LongerValue(): Path {
    Path(false, [Segment("inner", NoArguments), Segment("payload", NoArguments),
                 Segment("longer", NoArguments), Segment("Value", NoArguments)])
  }

  function Data2U32(): Path {
    Path(false, [Segment("some", NoArguments), Segment("Data2", Arguments("<u32>"))])
  }

  /** The unit test's token stream, innermost block first; every entry has its comma. */
  function InnermostTokens(): seq<Token> {
    [ P("Baz"), FatArrow, P("i32"), Comma,
      P("Shaz"), FatArrow, PathTok(LongerValue()), Comma,
      P("Fnaz"), FatArrow, P("i128"), Comma ]
  }

  function InnerTokens(): seq<Token> {
    [ P("Foo"), FatArrow, P("i16"), Comma,
      P("Bar"), FatArrow, P("u8"), Comma,
      P("Bar2"), FatArrow, P("i8"), Comma,
      PathTok(ModulePath("sub_topic2", "SubTopic2")), FatArrow, Brace(InnermostTokens()), Comma ]
  }

  function TestTokens(): seq<Token> {
    [ PathTok(ModulePath("sub_topic", "SubTopic")), FatArrow, Brace(InnerTokens()), Comma,
      P("SystemHealth"), FatArrow, P("String"), Comma,
      P("SomeData"), FatArrow, PathTok(ModulePath("some", "Data")), Comma,
      P("SomeData2"), FatArrow, PathTok(Data2U32()), Comma ]
  }

  function T(name: Ident, payload: Path): Decl { DeclTopic(name, None, payload) }

  function InnermostDecls(): seq<Decl> {
    [T("Baz", IdentPath("i32")), T("Shaz", LongerValue()), T("Fnaz", IdentPath("i128"))]
  }

  function InnerDecls(): seq<Decl> {
    [ T("Foo", IdentPath("i16")), T("Bar", IdentPath("u8")), T("Bar2", IdentPath("i8")),
      DeclSubTopic("sub_topic2", "SubTopic2", None, InnermostDecls(), true) ]
  }

  function TestDecls(): seq<Decl> {
    [ DeclSubTopic("sub_topic", "SubTopic", None, InnerDecls(), true),
      T("SystemHealth", IdentPath("String")), T("SomeData", ModulePath("some", "Data")),
      T("SomeData2", Data2U32()) ]
  }

  lemma RenderPlainTopic(name: Ident, payload: Path)
    ensures RenderDecl(T(name, payload)) == [P(name), FatArrow, PathTok(payload)]
  {
    assert CapacityTokens(None) == [];
  }

  /** With a trailing comma, every entry is followed by one. */
  lemma RenderCons(ds: seq<Decl>)
    requires |ds| > 0
    ensures RenderDecls(ds, true) == RenderDecl(ds[0]) + [Comma] + RenderDecls(ds[1..], true)
  {
  }

  lemma RenderInnermost()
    ensures RenderDecls(InnermostDecls(), true) == InnermostTokens()
  {
    var ds := InnermostDecls();
    RenderCons(ds);
    RenderCons(ds[1..]);
    RenderCons(ds[2..]);
    assert ds[1..][1..] == ds[2..] && ds[2..][1..] == [];
    RenderPlainTopic("Baz", IdentPath("i32"));
    RenderPlainTopic("Shaz", LongerValue());
    RenderPlainTopic("Fnaz", IdentPath("i128"));
  }

  lemma RenderInner()
    ensures RenderDecls(InnerDecls(), true) == InnerTokens()
  {
    var ds := InnerDecls();
    RenderCons(ds);
    RenderCons(ds[1..]);
    RenderCons(ds[2..]);
    RenderCons(ds[3..]);
    assert ds[1..][1..] == ds[2..] && ds[2..][1..] == ds[3..] && ds[3..][1..] == [];
    RenderPlainTopic("Foo", IdentPath("i16"));
    RenderPlainTopic("Bar", IdentPath("u8"));
    RenderPlainTopic("Bar2", IdentPath("i8"));
    RenderInnermost();
    assert CapacityTokens(None) == [];
    assert RenderDecl(ds[3]) == [PathTok(ModulePath("sub_topic2", "SubTopic2")), FatArrow, Brace(InnermostTokens())];
  }

  lemma RenderTop()
    ensures RenderDecls(TestDecls(), true) == TestTokens()
  {
    var ds := TestDecls();
    RenderCons(ds);
    RenderCons(ds[1..]);
    RenderCons(ds[2..]);
    RenderCons(ds[3..]);
    assert ds[1..][1..] == ds[2..] && ds[2..][1..] == ds[3..] && ds[3..][1..] == [];
    RenderPlainTopic("SystemHealth", IdentPath("String"));
    RenderPlainTopic("SomeData", ModulePath("some", "Data"));
    RenderPlainTopic("SomeData2", Data2U32());
    RenderInner();
    assert CapacityTokens(None) == [];
    assert RenderDecl(ds[0]) == [PathTok(ModulePath("sub_topic", "SubTopic")), FatArrow, Brace(InnerTokens())];
  }

  lemma TestWellFormed()
    ensures AllWellFormed(TestDecls())
  {
    assert AllWellFormed(InnermostDecls());
    assert AllWellFormed(InnerDecls()) by {
      assert WellFormed(InnerDecls()[3]);
    }
    assert WellFormed(TestDecls()[0]);
  }

  /** The tree the unit test expects, written out: every topic has the default capacity 1. */
  function InnermostTree(): Node {
    Node([Topic("Baz", IdentPath("i32"), 1), Topic("Shaz", LongerValue(), 1), Topic("Fnaz", IdentPath("i128"), 1)], [])
  }

  function InnerTree(): Node {
    Node([Topic("Foo", IdentPath("i16"), 1), Topic("Bar", IdentPath("u8"), 1), Topic("Bar2", IdentPath("i8"), 1)],
         [SubTopic("SubTopic2", "sub_topic2", InnermostTree())])
  }

  function TestTree(): Node {
    Node([Topic("SystemHealth", IdentPath("String"), 1), Topic("SomeData", ModulePath("some", "Data"), 1),
          Topic("SomeData2", Data2U32(), 1)],
         [SubTopic("SubTopic", "sub_topic", InnerTree())])
  }

  lemma InnermostAbstract()
    ensures AbstractInto(InnermostDecls(), [], []) == InnermostTree()
  {
    var ds := InnermostDecls();
    AbstractKeepsOrder(ds, [], []);
    assert ds[1..][1..] == ds[2..] && ds[2..][1..] == [];
    assert DeclaredTopics(ds[2..]) == [Topic("Fnaz", IdentPath("i128"), 1)];
    assert DeclaredSubTopics(ds[1..]) == [];
  }

  lemma InnerAbstract()
    ensures AbstractInto(InnerDecls(), [], []) == InnerTree()
  {
    var ds := InnerDecls();
    AbstractKeepsOrder(ds, [], []);
    InnermostAbstract();
    assert ds[1..][1..] == ds[2..] && ds[2..][1..] == ds[3..] && ds[3..][1..] == [];
    assert DeclaredTopics(ds[2..]) == [Topic("Bar2", IdentPath("i8"), 1)];
    assert DeclaredSubTopics(ds[2..]) == [SubTopic("SubTopic2", "sub_topic2", InnermostTree())];
  }

  lemma TestAbstract()
    ensures AbstractInto(TestDecls(), [], []) == TestTree()
  {
    var ds := TestDecls();
    AbstractKeepsOrder(ds, [], []);
    InnerAbstract();
    assert ds[1..][1..] == ds[2..] && ds[2..][1..] == ds[3..] && ds[3..][1..] == [];
    assert DeclaredTopics(ds[1..]) == TestTree().topics;
    assert DeclaredSubTopics(ds[1..]) == [];
  }

  /** The topics of the unit test's tree at any depth, in pre-order. */
  lemma TestTreeAllTopics()
    ensures AllTopics(TestTree()) == TestTree().topics + InnerTree().topics + InnermostTree().topics
  {
    var innermost := SubTopic("SubTopic2", "sub_topic2", InnermostTree());
    assert AllTopicsOf([innermost]) == InnermostTree().topics by {
      assert [innermost][..0] == [];
    }
    var inner := SubTopic("SubTopic", "sub_topic", InnerTree());
    assert AllTopicsOf([inner]) == AllTopics(InnerTree()) by {
      assert [inner][..0] == [];
    }
  }

  lemma DeclaresAt(n: Node, i: nat)
    requires i < |AllTopics(n)|
    ensures Declares(n, AllTopics(n)[i].name, AllTopics(n)[i].payload)
  {
    assert AllTopics(n)[i] in AllTopics(n);
  }

  lemma NotDeclared(n: Node, name: Ident, payload: Path)
    requires forall i :: 0 <= i < |AllTopics(n)| ==> AllTopics(n)[i].name != name
    ensures !Declares(n, name, payload)
  {
  }

  lemma TestTreeNames()
    ensures forall i :: 0 <= i < |AllTopics(TestTree())| ==> AllTopics(TestTree())[i].name != "Asdfasdf"
  {
    TestTreeAllTopics();
    var all := TestTree().topics + InnerTree().topics + InnermostTree().topics;
    forall i | 0 <= i < |all|
      ensures all[i].name != "Asdfasdf"
    {
      assert "SomeData"[0] != "Asdfasdf"[0];
    }
  }

  /** The unit test's lookups of root topics, on the tree written out. */
  lemma TestRootDeclares()
    ensures var n := TestTree();
      && Declares(n, "SystemHealth", IdentPath("String"))
      && Declares(n, "SomeData", ModulePath("some", "Data"))
      && Declares(n, "SomeData2", Data2U32())
  {
    TestTreeAllTopics();
    DeclaresAt(TestTree(), 0);
    DeclaresAt(TestTree(), 1);
    DeclaresAt(TestTree(), 2);
  }

  lemma TestInnerDeclares()
    ensures var n := TestTree();
      && Declares(n, "Foo", IdentPath("i16"))
      && Declares(n, "Bar", IdentPath("u8"))
      && Declares(n, "Bar2", IdentPath("i8"))
  {
    TestTreeAllTopics();
    DeclaresAt(TestTree(), 3);
    DeclaresAt(TestTree(), 4);
    DeclaresAt(TestTree(), 5);
  }

  lemma TestInnermostDeclares()
    ensures var n := TestTree();
      && Declares(n, "Baz", IdentPath("i32"))
      && Declares(n, "Shaz", LongerValue())
      && Declares(n, "Fnaz", IdentPath("i128"))
  {
    TestTreeAllTopics();
    DeclaresAt(TestTree(), 6);
    DeclaresAt(TestTree(), 7);
    DeclaresAt(TestTree(), 8);
  }

  /**
   * The unit test's tree: 3 topics and 1 sub-topic, which has 3 topics and 1
   * sub-topic, which has 3 topics; and `check_if_topic_exists` finds each of
   * the nine topics with its payload, but no `Asdfasdf` carrying `i16`.
   */
  lemma TestTreeShape()
    ensures Parse(TestTokens()) == Ok(TestTree())
    ensures var n := Parse(TestTokens()).value;
      && |n.topics| == 3 && |n.subTopics| == 1
      && |n.subTopics[0].child.topics| == 3 && |n.subTopics[0].child.subTopics| == 1
      && |n.subTopics[0].child.subTopics[0].child.topics| == 3
      && |n.subTopics[0].child.subTopics[0].child.subTopics| == 0
    ensures var n := Parse(TestTokens()).value;
      && Declares(n, "Foo", IdentPath("i16"))
      && Declares(n, "Bar", IdentPath("u8"))
      && Declares(n, "Bar2", IdentPath("i8"))
      && Declares(n, "Baz", IdentPath("i32"))
      && Declares(n, "Shaz", LongerValue())
      && Declares(n, "Fnaz", IdentPath("i128"))
      && Declares(n, "SystemHealth", IdentPath("String"))
      && Declares(n, "SomeData", ModulePath("some", "Data"))
      && Declares(n, "SomeData2", Data2U32())
      && !Declares(n, "Asdfasdf", IdentPath("i16"))
  {
    RenderTop();
    TestWellFormed();
    ParseRendered(TestDecls(), true);
    TestAbstract();
    TestRootDeclares();
    TestInnerDeclares();
    TestInnermostDeclares();
    TestTreeNames();
    NotDeclared(TestTree(), "Asdfasdf", IdentPath("i16"));
  }
}
