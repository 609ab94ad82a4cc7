/**
 * The topic-tree parser of the older `async-bus-macros` crate: entries
 * `path => rhs` separated by commas, with no capacity syntax and no check of
 * generic arguments. A one-segment path declares a topic; a two-segment path
 * declares a sub-topic that keeps the whole path as its name.
 */
module AsyncAst {
  import opened Wrappers
  import opened Tokens

  /** Leaf declaration `Name => Payload`. */
  datatype Topic = Topic(name: Ident, payload: Path)

  /** Interior declaration `module::Name => { ... }`, named by its whole path. */
  datatype SubTopic = SubTopic(name: Path, child: Node)

  datatype Node = Node(topics: seq<Topic>, subTopics: seq<SubTopic>)

  datatype ParseError =
    | ExpectedPath        // the entry does not start with a path / a payload path is missing
    | LeadingColon        // `::Name`
    | ExpectedFatArrow
    | ExpectedBrace
    | UnsupportedForm     // a path of three or more segments
    | ExpectedComma

  datatype Entry = TopicEntry(topic: Topic) | SubTopicEntry(subTopic: SubTopic)

  // ---------------------------------------------------------------------------
  // Specification of the parser, one entry at a time

  /** One entry at the head of a non-empty token sequence and the number of tokens it took. */
  function ParseEntry(ts: seq<Token>): (r: Result<(Entry, nat), ParseError>)
    requires |ts| > 0
    ensures r.Ok? ==> 0 < r.value.1 <= |ts|
    decreases ts, 0
  {
    if !IsPath(ts[0]) then Err(ExpectedPath)
    else
      var path := ts[0].path;
      if path.leadingColon then Err(LeadingColon)
      else if |ts| < 2 || ts[1] != FatArrow then Err(ExpectedFatArrow)
      else if |path.segments| == 1 then
        if |ts| < 3 || !IsPath(ts[2]) then Err(ExpectedPath)
        else Ok((TopicEntry(Topic(path.segments[0].ident, ts[2].path)), 3))
      else if |path.segments| == 2 then
        if |ts| < 3 || !ts[2].Brace? then Err(ExpectedBrace)
        else
          match ParseEntries(ts[2].content, [], [])
          case Err(e) => Err(e)
          case Ok(child) => Ok((SubTopicEntry(SubTopic(path, child)), 3))
      else Err(UnsupportedForm)
  }

  function Add(topics: seq<Topic>, subTopics: seq<SubTopic>, e: Entry): Node {
    match e
    case TopicEntry(t) => Node(topics + [t], subTopics)
    case SubTopicEntry(s) => Node(topics, subTopics + [s])
  }

  /** The entries in `ts`, appended to those found so far; a comma may end the sequence. */
  function ParseEntries(ts: seq<Token>, topics: seq<Topic>, subTopics: seq<SubTopic>): Result<Node, ParseError>
    decreases ts, 1
  {
    if |ts| == 0 then Ok(Node(topics, subTopics))
    else
      match ParseEntry(ts)
      case Err(e) => Err(e)
      case Ok((entry, n)) =>
        var node := Add(topics, subTopics, entry);
        if n == |ts| then Ok(node)
        else if ts[n] != Comma then Err(ExpectedComma)
        else ParseEntries(ts[n + 1..], node.topics, node.subTopics)
  }

  /** `ast::parse` */
  function Parse(ts: seq<Token>): Result<Node, ParseError> {
    ParseEntries(ts, [], [])
  }

  // ---------------------------------------------------------------------------
  // How the entry list unfolds after one entry

  lemma ParseEntriesErr(ts: seq<Token>, topics: seq<Topic>, subTopics: seq<SubTopic>)
    requires |ts| > 0 && ParseEntry(ts).Err?
    ensures ParseEntries(ts, topics, subTopics) == Err(ParseEntry(ts).error)
  {
  }

  lemma ParseEntriesLast(ts: seq<Token>, topics: seq<Topic>, subTopics: seq<SubTopic>)
    requires |ts| > 0 && ParseEntry(ts).Ok? && ParseEntry(ts).value.1 == |ts|
    ensures ParseEntries(ts, topics, subTopics) == Ok(Add(topics, subTopics, ParseEntry(ts).value.0))
  {
  }

  lemma ParseEntriesStep(ts: seq<Token>, topics: seq<Topic>, subTopics: seq<SubTopic>)
    requires |ts| > 0 && ParseEntry(ts).Ok?
    requires ParseEntry(ts).value.1 < |ts| && ts[ParseEntry(ts).value.1] == Comma
    ensures var node := Add(topics, subTopics, ParseEntry(ts).value.0);
      ParseEntries(ts, topics, subTopics) == ParseEntries(ts[ParseEntry(ts).value.1 + 1..], node.topics, node.subTopics)
  {
  }

  /** What follows an entry parsed at `ts[i..]`: the end, a comma and more entries, or an error. */
  lemma ParseEntriesAt(ts: seq<Token>, i: nat, topics: seq<Topic>, subTopics: seq<SubTopic>)
    requires i < |ts| && ParseEntry(ts[i..]).Ok?
    ensures var (e, n) := ParseEntry(ts[i..]).value;
      var node := Add(topics, subTopics, e);
      && i + n <= |ts|
      && (i + n == |ts| ==> ParseEntries(ts[i..], topics, subTopics) == ParseEntries(ts[i + n..], node.topics, node.subTopics))
      && (i + n < |ts| && ts[i + n] != Comma ==> ParseEntries(ts[i..], topics, subTopics) == Err(ExpectedComma))
      && (i + n < |ts| && ts[i + n] == Comma
          ==> ParseEntries(ts[i..], topics, subTopics) == ParseEntries(ts[i + n + 1..], node.topics, node.subTopics))
  {
    var rest := ts[i..];
    var (e, n) := ParseEntry(rest).value;
    if i + n == |ts| {
      ParseEntriesLast(rest, topics, subTopics);
    } else if ts[i + n] == Comma {
      ParseEntriesStep(rest, topics, subTopics);
      assert rest[n + 1..] == ts[i + n + 1..];
    }
  }

  // ---------------------------------------------------------------------------
  // The parser as written

  /** `parse_ast_nodes`: consumes the stream entry by entry and stops at the first error. */
  method ParseAstNodes(ts: seq<Token>) returns (r: Result<Node, ParseError>)
    ensures r == Parse(ts)
    decreases ts, 1
  {
    var topics: seq<Topic> := [];
    var subTopics: seq<SubTopic> := [];
    var i := 0;
    ghost var goal := Parse(ts);
    assert ts[0..] == ts;
    while i < |ts|
      invariant i <= |ts|
      invariant goal == ParseEntries(ts[i..], topics, subTopics)
      decreases |ts| - i
    {
      var parsed := ParseEntryAt(ts, i);
      if parsed.Err? {
        ParseEntriesErr(ts[i..], topics, subTopics);
        return Err(parsed.error);
      }
      ParseEntriesAt(ts, i, topics, subTopics);
      var entry, n := parsed.value.0, parsed.value.1;
      var node := Add(topics, subTopics, entry);
      topics, subTopics := node.topics, node.subTopics;
      i := i + n;
      // A trailing comma is not needed at the end of the stream.
      if i < |ts| {
        if ts[i] != Comma {
          return Err(ExpectedComma);
        }
        i := i + 1;
      }
    }
    return Ok(Node(topics, subTopics));
  }

  /**
   * The body of `parse_ast_nodes`' loop up to the comma: the path, `=>`, then
   * a payload path or a braced block parsed by the recursive call.
   */
  method ParseEntryAt(ts: seq<Token>, i: nat) returns (r: Result<(Entry, nat), ParseError>)
    requires i < |ts|
    ensures r == ParseEntry(ts[i..])
    decreases ts, 0
  {
    ghost var rest := ts[i..];
    if !IsPath(ts[i]) {
      return Err(ExpectedPath);
    }
    var path := ts[i].path;
    if path.leadingColon {
      return Err(LeadingColon);
    }
    if i + 1 >= |ts| || ts[i + 1] != FatArrow {
      return Err(ExpectedFatArrow);
    }
    if |path.segments| == 1 {
      if i + 2 >= |ts| || !IsPath(ts[i + 2]) {
        return Err(ExpectedPath);
      }
      return Ok((TopicEntry(Topic(path.segments[0].ident, ts[i + 2].path)), 3));
    } else if |path.segments| == 2 {
      if i + 2 >= |ts| || !ts[i + 2].Brace? {
        return Err(ExpectedBrace);
      }
      assert rest[2] == ts[i + 2];
      var child := ParseAstNodes(ts[i + 2].content);
      if child.Err? {
        return Err(child.error);
      }
      return Ok((SubTopicEntry(SubTopic(path, child.value)), 3));
    } else {
      return Err(UnsupportedForm);
    }
  }
}
