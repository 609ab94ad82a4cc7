/**
 * The token stream both macro front ends consume, at the granularity the
 * parsers look at it: a Rust path arrives already grouped (optional leading
 * `::`, then segments each with optional generic arguments), delimited groups
 * carry their own token sequences, and everything else is an opaque token.
 */
module Tokens {

  type Ident = string

  /** Generic arguments after a path segment (`<u32>`), kept as opaque text. */
  datatype PathArguments = NoArguments | Arguments(text: string)

  datatype Segment = Segment(ident: Ident, arguments: PathArguments)

  datatype Path = Path(leadingColon: bool, segments: seq<Segment>)

  datatype Token =
    | PathTok(path: Path)             // `a::b::C<T>`
    | IntLit(value: nat)              // an integer literal such as `10`
    | Bracket(content: seq<Token>)    // `[ ... ]`
    | Brace(content: seq<Token>)      // `{ ... }`
    | FatArrow                        // `=>`
    | Comma                           // `,`
    | Other(text: string)             // any other token

  /** A plain identifier used as a path: `Name`. */
  function IdentPath(name: Ident): (p: Path)
    ensures !p.leadingColon && |p.segments| == 1 && p.segments[0].ident == name
  {
    Path(false, [Segment(name, NoArguments)])
  }

  /** A two-segment path without generics: `module::Name`. */
  function ModulePath(moduleName: Ident, name: Ident): (p: Path)
    ensures !p.leadingColon && |p.segments| == 2
    ensures p.segments[0].ident == moduleName && p.segments[1].ident == name
  {
    Path(false, [Segment(moduleName, NoArguments), Segment(name, NoArguments)])
  }

  /** True when the token starts a path: an identifier or a leading `::` followed by one. */
  predicate IsPath(t: Token) {
    t.PathTok? && |t.path.segments| > 0
  }

  /** True when some segment of the path carries generic arguments. */
  predicate HasGenerics(p: Path) {
    exists i :: 0 <= i < |p.segments| && p.segments[i].arguments != NoArguments
  }
}
