/**
 * The topic-tree parser of the `message-bus-macros` crate: entries of the form
 * `path [capacity]? => rhs`, separated by commas, where a one-identifier path
 * declares a topic with a payload type and a `module::Name` path declares a
 * sub-topic with a braced block of further entries.
 */
module Ast {
  import opened Wrappers
  import opened Tokens

  /** Largest value `usize` holds on the 64-bit host the macro runs on. */
  const USIZE_MAX: nat := 0xFFFF_FFFF_FFFF_FFFF

  /** Leaf declaration `Name [capacity] => Payload`. */
  datatype Topic = Topic(name: Ident, payload: Path, capacity: nat)

  /** Interior declaration `module::Name => { ... }`; it keeps no capacity. */
  datatype SubTopic = SubTopic(name: Ident, moduleName: Ident, child: Node)

  /** One level of the tree: its topics and its sub-topics, each in source order. */
  datatype Node = Node(topics: seq<Topic>, subTopics: seq<SubTopic>)

  datatype ParseError =
    | ExpectedPath        // the entry does not start with an identifier / a payload path is missing
    | LeadingColon        // `::Name`
    | GenericArguments    // a path segment carries `<...>`
    | ExpectedIntLit      // `[...]` does not hold an integer literal
    | CapacityOverflow    // the literal does not fit in `usize`
    | ZeroCapacity        // "Capacity must be larger than 0"
    | UnexpectedToken     // tokens left over after the literal inside `[...]`
    | ExpectedFatArrow
    | ExpectedBrace
    | UnsupportedForm     // a path of three or more segments
    | ExpectedComma

  /** What one entry declares. */
  datatype Entry = TopicEntry(topic: Topic) | SubTopicEntry(subTopic: SubTopic)

  // ---------------------------------------------------------------------------
  // Specification of the parser, one entry at a time, over the remaining tokens

  /**
   * The optional `[capacity]` at the head of `ts`: the capacity and how many
   * tokens it took. Without brackets the capacity is 1.
   */
  function ParseCapacity(ts: seq<Token>): (r: Result<(nat, nat), ParseError>)
    ensures r.Ok? ==> 1 <= r.value.0 <= USIZE_MAX && r.value.1 <= 1 && r.value.1 <= |ts|
    ensures r.Ok? && r.value.1 == 0 ==> r.value.0 == 1
  {
    if |ts| > 0 && ts[0].Bracket? then
      var content := ts[0].content;
      if |content| == 0 || !content[0].IntLit? then Err(ExpectedIntLit)
      else if content[0].value > USIZE_MAX then Err(CapacityOverflow)
      else if content[0].value == 0 then Err(ZeroCapacity)
      else if |content| > 1 then Err(UnexpectedToken)
      else Ok((content[0].value, 1))
    else
      Ok((1, 0))
  }

  /**
   * One entry at the head of a non-empty token sequence: what it declares and
   * how many tokens it took (the separating comma excluded).
   */
  function ParseEntry(ts: seq<Token>): (r: Result<(Entry, nat), ParseError>)
    requires |ts| > 0
    ensures r.Ok? ==> 0 < r.value.1 <= |ts|
    decreases ts, 0
  {
    if !IsPath(ts[0]) then Err(ExpectedPath)
    else
      var path := ts[0].path;
      if path.leadingColon then Err(LeadingColon)
      else if HasGenerics(path) then Err(GenericArguments)
      else
        match ParseCapacity(ts[1..])
        case Err(e) => Err(e)
        case Ok((capacity, used)) =>
          var k := 1 + used;
          if k >= |ts| || ts[k] != FatArrow then Err(ExpectedFatArrow)
          else if |path.segments| == 1 then
            if k + 1 >= |ts| || !IsPath(ts[k + 1]) then Err(ExpectedPath)
            else Ok((TopicEntry(Topic(path.segments[0].ident, ts[k + 1].path, capacity)), k + 2))
          else if |path.segments| == 2 then
            if k + 1 >= |ts| || !ts[k + 1].Brace? then Err(ExpectedBrace)
            else
              match ParseEntries(ts[k + 1].content, [], [])
              case Err(e) => Err(e)
              case Ok(child) =>
                Ok((SubTopicEntry(SubTopic(path.segments[1].ident, path.segments[0].ident, child)), k + 2))
          else Err(UnsupportedForm)
  }

  /** Appends a parsed entry to the node under construction. */
  function Add(topics: seq<Topic>, subTopics: seq<SubTopic>, e: Entry): Node
  {
    match e
    case TopicEntry(t) => Node(topics + [t], subTopics)
    case SubTopicEntry(s) => Node(topics, subTopics + [s])
  }

  /**
   * The entries in `ts`, appended to the `topics` and `subTopics` found so far.
   * Entries are separated by commas; a comma may end the sequence.
   */
  function ParseEntries(ts: seq<Token>, topics: seq<Topic>, subTopics: seq<SubTopic>): (r: Result<Node, ParseError>)
    decreases ts, 1
  {
    if |ts| == 0 then Ok(Node(topics, subTopics))
    else
      match ParseEntry(ts)
      case Err(e) => Err(e)
      case Ok((entry, n)) =>
        var node := Add(topics, subTopics, entry);
        if n == |ts| then Ok(node)
        else if ts[n] != Comma then Err(ExpectedComma)
        else ParseEntries(ts[n + 1..], node.topics, node.subTopics)
  }

  /** The tree a whole token stream parses to (`Ast::parse`). */
  function Parse(ts: seq<Token>): Result<Node, ParseError>
  {
    ParseEntries(ts, [], [])
  }

  // ---------------------------------------------------------------------------
  // How the entry list unfolds after one entry

  /** A failing entry fails the parse with its error. */
  lemma ParseEntriesErr(ts: seq<Token>, topics: seq<Topic>, subTopics: seq<SubTopic>)
    requires |ts| > 0 && ParseEntry(ts).Err?
    ensures ParseEntries(ts, topics, subTopics) == Err(ParseEntry(ts).error)
  {
  }

  /** A parsed entry followed by something other than a comma. */
  lemma ParseEntriesNoComma(ts: seq<Token>, topics: seq<Topic>, subTopics: seq<SubTopic>)
    requires |ts| > 0 && ParseEntry(ts).Ok?
    requires ParseEntry(ts).value.1 < |ts| && ts[ParseEntry(ts).value.1] != Comma
    ensures ParseEntries(ts, topics, subTopics) == Err(ExpectedComma)
  {
  }

  /** One parsed entry ending the stream. */
  lemma ParseEntriesLast(ts: seq<Token>, topics: seq<Topic>, subTopics: seq<SubTopic>)
    requires |ts| > 0 && ParseEntry(ts).Ok? && ParseEntry(ts).value.1 == |ts|
    ensures ParseEntries(ts, topics, subTopics) == Ok(Add(topics, subTopics, ParseEntry(ts).value.0))
  {
  }

  /** One parsed entry followed by a comma: parsing continues after the comma. */
  lemma ParseEntriesStep(ts: seq<Token>, topics: seq<Topic>, subTopics: seq<SubTopic>)
    requires |ts| > 0 && ParseEntry(ts).Ok?
    requires ParseEntry(ts).value.1 < |ts| && ts[ParseEntry(ts).value.1] == Comma
    ensures var node := Add(topics, subTopics, ParseEntry(ts).value.0);
      ParseEntries(ts, topics, subTopics) == ParseEntries(ts[ParseEntry(ts).value.1 + 1..], node.topics, node.subTopics)
  {
  }

  /** What follows an entry parsed at `ts[i..]`: the end, a comma and more entries, or an error. */
  lemma ParseEntriesAt(ts: seq<Token>, i: nat, topics: seq<Topic>, subTopics: seq<SubTopic>)
    requires i < |ts| && ParseEntry(ts[i..]).Ok?
    ensures var (e, n) := ParseEntry(ts[i..]).value;
      var node := Add(topics, subTopics, e);
      && i + n <= |ts|
      && (i + n == |ts| ==> ParseEntries(ts[i..], topics, subTopics) == ParseEntries(ts[i + n..], node.topics, node.subTopics))
      && (i + n < |ts| && ts[i + n] != Comma ==> ParseEntries(ts[i..], topics, subTopics) == Err(ExpectedComma))
      && (i + n < |ts| && ts[i + n] == Comma
          ==> ParseEntries(ts[i..], topics, subTopics) == ParseEntries(ts[i + n + 1..], node.topics, node.subTopics))
  {
    var rest := ts[i..];
    var (e, n) := ParseEntry(rest).value;
    var node := Add(topics, subTopics, e);
    if i + n == |ts| {
      ParseEntriesLast(rest, topics, subTopics);
    } else if ts[i + n] != Comma {
      ParseEntriesNoComma(rest, topics, subTopics);
    } else {
      ParseEntriesStep(rest, topics, subTopics);
      assert rest[n + 1..] == ts[i + n + 1..];
    }
  }

  // ---------------------------------------------------------------------------
  // The parser as written: a loop consuming the stream, recursing into braces

  /**
   * `parse_ast_nodes`: consumes the token stream entry by entry, pushing onto
   * the topic and sub-topic lists, and stops at the first error.
   */
  method ParseAstNodes(ts: seq<Token>) returns (r: Result<Node, ParseError>)
    ensures r == Parse(ts)
    decreases ts, 1
  {
    var topics: seq<Topic> := [];
    var subTopics: seq<SubTopic> := [];
    var i := 0;
    ghost var goal := Parse(ts);
    assert ts[0..] == ts;
    while i < |ts|
      invariant i <= |ts|
      invariant goal == ParseEntries(ts[i..], topics, subTopics)
      decreases |ts| - i
    {
      var parsed := ParseEntryAt(ts, i);
      if parsed.Err? {
        ParseEntriesErr(ts[i..], topics, subTopics);
        return Err(parsed.error);
      }
      ParseEntriesAt(ts, i, topics, subTopics);
      var entry, n := parsed.value.0, parsed.value.1;
      var node := Add(topics, subTopics, entry);
      topics, subTopics := node.topics, node.subTopics;
      i := i + n;
      // A trailing comma is not needed at the end of the stream.
      if i < |ts| {
        if ts[i] != Comma {
          return Err(ExpectedComma);
        }
        i := i + 1;
      }
    }
    return Ok(Node(topics, subTopics));
  }

  /**
   * The body of `parse_ast_nodes`' loop up to the comma: the path and its
   * checks, the optional `[capacity]`, `=>`, then a payload path or a braced
   * block parsed by the recursive call. Reads from `ts[i..]` and returns the
   * entry and the number of tokens it took.
   */
  method ParseEntryAt(ts: seq<Token>, i: nat) returns (r: Result<(Entry, nat), ParseError>)
    requires i < |ts|
    ensures r == ParseEntry(ts[i..])
    decreases ts, 0
  {
    ghost var rest := ts[i..];
    if !IsPath(ts[i]) {
      return Err(ExpectedPath);
    }
    var path := ts[i].path;
    if path.leadingColon {
      return Err(LeadingColon);
    }
    for m := 0 to |path.segments|
      invariant forall m' :: 0 <= m' < m ==> path.segments[m'].arguments == NoArguments
    {
      if path.segments[m].arguments != NoArguments {
        return Err(GenericArguments);
      }
    }
    assert !HasGenerics(path);
    var j := i + 1;
    assert rest[1..] == ts[j..];

    var capacity := 1;
    if j < |ts| && ts[j].Bracket? {
      var content := ts[j].content;
      if |content| == 0 || !content[0].IntLit? {
        return Err(ExpectedIntLit);
      }
      if content[0].value > USIZE_MAX {
        return Err(CapacityOverflow);
      }
      if content[0].value == 0 {
        return Err(ZeroCapacity);
      }
      if |content| > 1 {
        return Err(UnexpectedToken);
      }
      capacity := content[0].value;
      j := j + 1;
    }
    assert ParseCapacity(rest[1..]) == Ok((capacity, j - i - 1));

    if j >= |ts| || ts[j] != FatArrow {
      return Err(ExpectedFatArrow);
    }
    j := j + 1;

    if |path.segments| == 1 {
      if j >= |ts| || !IsPath(ts[j]) {
        return Err(ExpectedPath);
      }
      return Ok((TopicEntry(Topic(path.segments[0].ident, ts[j].path, capacity)), j + 1 - i));
    } else if |path.segments| == 2 {
      if j >= |ts| || !ts[j].Brace? {
        return Err(ExpectedBrace);
      }
      var child := ParseAstNodes(ts[j].content);
      if child.Err? {
        return Err(child.error);
      }
      return Ok((SubTopicEntry(SubTopic(path.segments[1].ident, path.segments[0].ident, child.value)), j + 1 - i));
    } else {
      return Err(UnsupportedForm);
    }
  }

  // ---------------------------------------------------------------------------
  // Topics at any depth, and the lookup the parser's unit test uses

  /** Every topic of the tree in pre-order: the node's own, then each sub-topic's. */
  function AllTopics(n: Node): seq<Topic>
    decreases n
  {
    n.topics + AllTopicsOf(n.subTopics)
  }

  /** Every topic beneath the given sub-topics, in order. */
  function AllTopicsOf(subs: seq<SubTopic>): seq<Topic>
    decreases subs
  {
    if |subs| == 0 then [] else AllTopicsOf(subs[..|subs| - 1]) + AllTopics(subs[|subs| - 1].child)
  }

  /** Some topic at any depth has this name and this payload. */
  ghost predicate Declares(n: Node, name: Ident, payload: Path) {
    exists t :: t in AllTopics(n) && t.name == name && t.payload == payload
  }

  /** Every topic at any depth has a positive capacity. */
  ghost predicate PositiveCapacities(n: Node) {
    forall t :: t in AllTopics(n) ==> t.capacity >= 1
  }

  lemma {:induction false} AllTopicsOfPrefix(subs: seq<SubTopic>, k: nat)
    requires k <= |subs|
    ensures forall t :: t in AllTopicsOf(subs[..k]) ==> t in AllTopicsOf(subs)
    decreases |subs| - k
  {
    if k < |subs| {
      AllTopicsOfPrefix(subs, k + 1);
      assert subs[..k + 1][..k] == subs[..k];
    } else {
      assert subs[..k] == subs;
    }
  }

  /**
   * `check_if_topic_exists`: searches the node's topics, then each sub-topic's
   * tree, for a topic with this name and payload (payloads compared as paths).
   */
  method CheckIfTopicExists(node: Node, name: Ident, payload: Path) returns (found: bool)
    ensures found <==> Declares(node, name, payload)
    decreases node
  {
    for k := 0 to |node.topics|
      invariant forall m :: 0 <= m < k ==> !(node.topics[m].name == name && node.topics[m].payload == payload)
    {
      if node.topics[k].name == name && node.topics[k].payload == payload {
        assert node.topics[k] in AllTopics(node);
        return true;
      }
    }
    var subs := node.subTopics;
    for k := 0 to |subs|
      invariant forall t :: t in AllTopicsOf(subs[..k]) ==> !(t.name == name && t.payload == payload)
    {
      found := CheckIfTopicExists(subs[k].child, name, payload);
      assert subs[..k + 1][..k] == subs[..k];
      if found {
        var t :| t in AllTopics(subs[k].child) && t.name == name && t.payload == payload;
        AllTopicsOfPrefix(subs, k + 1);
        assert t in AllTopics(node);
        return true;
      }
    }
    assert subs[..|subs|] == subs;
    return false;
  }
}
