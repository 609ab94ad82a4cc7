# Topic-tree message bus, modelled in Dafny

The repository provides an in-process publish/subscribe bus for Rust in two
generations.

The current generation has two crates:

- `message-bus-macros` is a procedural macro `make_message_bus!`. It reads a
  tree of declarations:
  - `Name [capacity] => Payload` declares a topic (a leaf);
  - `module::Name => { ... }` declares a sub-topic (an interior node).

  The macro parses the tree, checks it and generates one Rust module per
  sub-topic. Each sub-topic module holds a broadcast channel, a tagged union
  of its children and one handle per topic. A topic's `publish` forwards the
  payload, wrapped in the right variants, to the channel of every enclosing
  sub-topic, and then sends it on the topic's own channel.
- `make-message-bus` is the runtime. A `Topic` owns a bounded broadcast
  channel. A `Subscriber` reads from it, skips over lags and counts the
  messages it lost.

The older generation is `async-bus-macros` and `async-bus`. Its grammar has
no capacities. Its analysis also checks the root level. Every channel holds a
single message, and subscribers keep no count of what they lost.

The model follows the source's own form:

- The parsers and analyzers are loops over a token stream or an error list.
  They become methods (`ParseAstNodes`, `CheckSubtopicsForUniqueness`,
  `Analyze`, `FindTotalCapacity`, `CodegenSubtopics`). Each is proved equal
  to a recursive specification function (`Parse`, `SubTopicErrors`,
  `AnalysisErrors`, `TotalCapacity`, `GenSubTopics`). The lemmas are stated
  over those functions.
- The code generator's `SubTopicTracker` is a class whose stack the methods
  push and pop.
- The runtime is a set of classes: `Topic`, `Subscriber`, and a `Broadcast`
  channel with its receivers. They work over an abstract bounded broadcast
  log.

Tokens are modelled at the granularity the parsers inspect. A path arrives
as one token with its segments and any generic arguments. Bracketed and
braced groups carry their own tokens.

Where the repository's documentation and its code differ, the model follows
the code:

- `analyze` reports the first error twice. The combined error starts from a
  copy of the first error and then combines every error into it, the first
  included (`message-bus-macros/src/analysis.rs:58-63`). `Analyze` and
  `Driver.Expand` therefore return `[e0] + errors`.
- A sub-topic's channel capacity is the sum of the capacities of the topics
  anywhere below it (`codegen.rs:153-166`). Sub-topics add nothing of their
  own, so an empty sub-topic gets capacity 0 (`Driver.EmptyRootExpansion`).
  `Topic::new::<0>()` is accepted because the channel is built lazily, but
  tokio panics when such a channel is first used. Subscribing to the module
  of an empty sub-topic therefore panics at run time. The model accepts a
  zero capacity in `MessageBus.Topic.New` and demands a positive one in
  `Subscribe` and `Publish`.
- Sub-topics have no `publish` of their own. Only topics fan out to their
  ancestors.
- A capacity written on a sub-topic is parsed and then dropped
  (`AstProperties.SubTopicCapacityDiscarded`).
- A topic and a sub-topic with the same name in one block are not reported.
  Topic names and sub-topic names are checked separately. The union generated
  for that block then has two arms with the same name, which Rust refuses to
  compile (`Driver.SharedNameAccepted`, `Driver.EnumArmsDistinct`).
- The expected-output comments in the macro's compile-fail fixtures mark both
  occurrences of a duplicate. The analysis reports only the later one, and the
  fixture lemmas state what the code reports.

## Model

| member | source | states |
|---|---|---|
| Ast.ParseCapacity | message-bus-macros/src/ast.rs:62-79 | an accepted capacity lies between 1 and `usize::MAX`; without brackets it defaults to 1 and consumes no token |
| Ast.ParseEntry | message-bus-macros/src/ast.rs:44-112 | an accepted entry consumes at least one and at most all of the remaining tokens |
| Ast.ParseAstNodes | message-bus-macros/src/ast.rs:35-123 | the entry-by-entry loop returns exactly what the recursive grammar `Parse` gives, the first error included |
| Ast.ParseEntryAt | message-bus-macros/src/ast.rs:44-112 | one loop iteration (path, capacity, `=>`, payload or nested block) yields exactly the specification entry and its length |
| Ast.ParseEntriesAt | message-bus-macros/src/ast.rs:114-119 | after an entry, the stream either ends, fails with a missing-comma error, or continues after the comma with the entry added |
| Ast.CheckIfTopicExists | message-bus-macros/src/ast.rs:139-155 | the test helper answers true exactly when some node of the tree declares a topic with that name and payload |
| AstProperties.CapacityOfRender | message-bus-macros/src/ast.rs:62-79 | a rendered valid capacity (or none) parses back to itself (or to the default 1), consuming exactly its tokens |
| AstProperties.TopicOfRender | message-bus-macros/src/ast.rs:83-93 | a well-formed topic declaration parses back to its topic, consuming exactly its tokens, whatever follows |
| AstProperties.SubTopicOfRender | message-bus-macros/src/ast.rs:94-106 | a sub-topic declaration whose block round-trips parses back to its sub-topic, consuming exactly its tokens |
| AstProperties.ParseEntryOfRender | message-bus-macros/src/ast.rs:44-112 | every well-formed declaration, at any depth, parses back to the entry it denotes |
| AstProperties.RoundTrip | message-bus-macros/src/ast.rs:35-123 | rendering a list of well-formed declarations, with or without a trailing comma, and parsing it yields the tree they denote |
| AstProperties.ParseRendered | message-bus-macros/src/ast.rs:9-11 | `parse` inverts rendering for every well-formed declaration list |
| AstProperties.EntryIsRendered | message-bus-macros/src/ast.rs:44-112 | every accepted entry is the rendering of some well-formed declaration that denotes the parsed entry |
| AstProperties.ParsedIsRendered | message-bus-macros/src/ast.rs:35-123 | every accepted stream is the rendering of a well-formed declaration list that denotes the parsed tree |
| AstProperties.AcceptedIffRendered | message-bus-macros/src/ast.rs:9-11 | the parser accepts a stream exactly when it renders some well-formed declaration list, and the result is then that list's tree |
| AstProperties.RenderedPrefix | message-bus-macros/src/ast.rs:114-119 | a comma-terminated run of well-formed declarations is consumed in full, and parsing continues after it with their entries added |
| AstProperties.ErrorIgnoresEarlierEntries | message-bus-macros/src/ast.rs:35-123 | a parse error does not depend on the entries accepted before it |
| AstProperties.FirstErrorWins | message-bus-macros/src/ast.rs:35-123 | valid declarations in front of a failing stream do not change its error |
| AstProperties.LeadingColonRejected | message-bus-macros/src/ast.rs:46-51 | an entry starting with `::` is rejected with the leading-colon error |
| AstProperties.GenericsRejected | message-bus-macros/src/ast.rs:53-60 | an entry path with generic arguments on any segment is rejected |
| AstProperties.NestedGenericsRejected | message-bus-macros/ui/generic_subtopic.rs:3-9 | a generic path at the head of a sub-topic's block fails the whole stream with the generics error |
| AstProperties.ZeroCapacityRejected | message-bus-macros/src/ast.rs:69-74 | a capacity of `[0]` is rejected with the zero-capacity error, whatever follows |
| AstProperties.DefaultCapacity | message-bus-macros/src/ast.rs:77-79 | a topic without a capacity gets capacity 1 and takes three tokens |
| AstProperties.LongPathRejected | message-bus-macros/src/ast.rs:107-112 | a path of three or more segments is an unsupported form |
| AstProperties.MissingCommaRejected | message-bus-macros/src/ast.rs:114-119 | any token other than a comma after an entry is an error |
| AstProperties.SubTopicCapacityDiscarded | message-bus-macros/src/ast.rs:94-106 | a capacity written on a sub-topic is accepted and has no effect on the result |
| AstProperties.EmptyBlocks | message-bus-macros/src/ast.rs:35-123 | the empty stream gives the empty tree, and an empty braced block gives a sub-topic with no children |
| AstProperties.ParsedCapacitiesPositive | message-bus-macros/src/ast.rs:62-79 | every topic anywhere in an accepted tree has capacity at least 1 |
| AstProperties.AbstractKeepsOrder | message-bus-macros/src/ast.rs:83-106 | topics and sub-topics are appended in source order, each list separately |
| AstProperties.TestTreeShape | message-bus-macros/src/ast.rs:157-199 | the unit test's stream parses to exactly the expected tree: 3 root topics, 1 sub-topic with 3 topics and 1 sub-topic, and an innermost level of 3 topics, each with its payload and capacity 1; the lookup finds each of the nine topics with its payload and no `Asdfasdf` carrying `i16` |
| Uniqueness.ReportRepeats | message-bus-macros/src/analysis.rs:6-14 | the hash-set loop appends exactly one report per occurrence of an already-seen key, in order |
| Uniqueness.NoRepeatsIffDistinct | message-bus-macros/src/analysis.rs:6-14 | no key is reported exactly when all keys are distinct |
| Uniqueness.RepeatCount | message-bus-macros/src/analysis.rs:6-14 | a key occurring n > 0 times is reported n - 1 times |
| Uniqueness.RepeatsAndKeys | message-bus-macros/src/analysis.rs:6-14 | reports plus distinct keys account for every key exactly once |
| Uniqueness.KeySetMember | message-bus-macros/src/analysis.rs:25-30 | the set built while scanning holds exactly the keys seen so far |
| Analysis.CheckTopicsForUniqueness | message-bus-macros/src/analysis.rs:6-14 | appends one non-unique-topic error per repeated topic name of one level |
| Analysis.CheckSubtopicsForUniqueness | message-bus-macros/src/analysis.rs:16-32 | appends, for each sub-topic in turn, the errors inside it and then its own duplicate-name error: the recursive `SubTopicErrors` |
| Analysis.SubTopicStep | message-bus-macros/src/analysis.rs:19-30 | one loop iteration extends the error list by exactly one more sibling's contribution |
| Analysis.Analyze | message-bus-macros/src/analysis.rs:34-66 | accepts exactly when no error is collected; otherwise the combined error is the first error followed by all errors |
| Analysis.SubTopicErrorsEmpty | message-bus-macros/src/analysis.rs:16-32 | sibling sub-topics give no error exactly when their names are distinct and each subtree is clean |
| Analysis.NodeErrorsEmpty | message-bus-macros/src/analysis.rs:6-32 | a level gives no error exactly when its topic names are distinct, its sub-topic names are distinct, and so on all the way down |
| Analysis.AnalyzeAcceptsIff | message-bus-macros/src/analysis.rs:34-66 | a tree is accepted exactly when it has no root topic, at most one root sub-topic, and every subtree is clean; root-level topic names are not compared |
| Analysis.NoPlacementBelowRoot | message-bus-macros/src/analysis.rs:16-32 | the recursive check never produces a placement (root-level) error |
| Analysis.PlacementErrorsFirst | message-bus-macros/src/analysis.rs:38-52 | the placement errors come first: `TopicAtToplevel` for each root topic in order, then `MultipleRoots` for each root sub-topic in order when there are several, and no later error is a placement error |
| Analysis.OneExtra | message-bus-macros/src/analysis.rs:6-14 | adding one repeated name to a list of distinct names gives exactly one error, naming it |
| Analysis.TwoPairs | message-bus-macros/src/analysis.rs:6-14 | two adjacent pairs of equal names give two errors, in order |
| Analysis.DoubleTopicErrors | message-bus-macros/ui/double_topic.rs:3-23 | the fixture is rejected with exactly the duplicate topics `SomeData`, `SomeData2`, `SomeData3` and `SomeData4`, each found at its own level |
| Analysis.DoubleSubTopicErrors | message-bus-macros/ui/double_subtopic.rs:3-21 | the fixture is rejected with exactly the duplicate sub-topics `Topic` and then `TopicErr` |
| Analysis.TopicAtToplevelError | message-bus-macros/ui/topic_at_toplevel.rs:3-8 | a topic beside the root sub-topic gives exactly the topic-at-toplevel error |
| Analysis.SameNameDifferentModule | message-bus-macros/src/analysis.rs:16-32 | two siblings with the same name in different modules are still duplicates, reported after the errors inside them |
| Codegen.FindTotalCapacity | message-bus-macros/src/codegen.rs:153-166 | the recursive accumulation adds the sum of the capacities of every topic below the sub-topic |
| Codegen.ZeroCapacityIffNoTopics | message-bus-macros/src/codegen.rs:120-121 | in a parsed tree, a sub-topic channel has capacity 0 exactly when there is no topic below it, and otherwise at least one slot per topic |
| Codegen.CapacityCoversTopics | message-bus-macros/src/codegen.rs:153-166 | topics of capacity at least 1 sum to at least their number |
| Codegen.MakeTopicsEnum | message-bus-macros/src/codegen.rs:9-41 | the union has one arm per topic carrying its payload, then one arm per sub-topic, in source order |
| Codegen.AncestorValueShape | message-bus-macros/src/codegen.rs:191-213 | the value sent to the k-th enclosing channel is the cloned payload wrapped in the variants from that ancestor down to the topic, each enum reached through the right number of `super::` |
| Codegen.SubTopicTracker.constructor | message-bus-macros/src/codegen.rs:171-173 | a new tracker has an empty stack |
| Codegen.SubTopicTracker.AddSubtopic | message-bus-macros/src/codegen.rs:183-185 | pushes the sub-topic on the stack |
| Codegen.AtRootIffNotReexported | message-bus-macros/src/codegen.rs:179-181 | while a sub-topic's module is generated, the tracker is at the root exactly when the sub-topic has no enclosing one, which is exactly when the module is not re-exported |
| Codegen.SubTopicTracker.RemoveLastSubtopic | message-bus-macros/src/codegen.rs:187-189 | pops the last sub-topic; popping an empty stack leaves it empty |
| Codegen.SubTopicTracker.ToParentPublishes | message-bus-macros/src/codegen.rs:191-213 | the loop builds one publish per enclosing sub-topic, innermost first: `ParentPublishes` |
| Codegen.ParentPublishesShape | message-bus-macros/src/codegen.rs:191-213 | there is one publish per ancestor; the k-th reaches the k-th enclosing channel through k `super::` and carries a payload wrapped for that ancestor |
| Codegen.ExampleFanOut | make-message-bus/examples/basic.rs:45-48 | publishing on `Topic13` reaches the root channel as `Toplevel::SubTopic8(SubTopic8::SubTopic12(SubTopic12::Topic13(..)))` |
| Codegen.CodegenTopics | message-bus-macros/src/codegen.rs:43-83 | one handle per topic, in order, each with the topic's payload, its capacity and the publish body for the current stack |
| Codegen.PublishOrder | message-bus-macros/src/codegen.rs:73-77 | a topic's `publish` first forwards wrapped copies to every ancestor, innermost first, and sends the bare payload on its own channel last |
| Codegen.CodegenSubtopics | message-bus-macros/src/codegen.rs:85-151 | generates one module per sub-topic, recursing with the tracker pushed, and restores the tracker's stack on return |
| Codegen.Generate | message-bus-macros/src/codegen.rs:216-225 | generation starts from an empty stack at the root sub-topics |
| Codegen.ReexportIffNested | message-bus-macros/src/codegen.rs:112-116 | a module is re-exported one level up exactly when it is not at the root |
| Codegen.GenerateReexports | message-bus-macros/src/codegen.rs:112-116 | root modules are not re-exported, and every module inside them is |
| Codegen.AncestorValueResolves | message-bus-macros/src/codegen.rs:191-213 | along a chain of modules each of whose unions has an arm for what is nested inside it, every constructor of the value sent to an enclosing channel is an arm of the union it names |
| Codegen.TopicHandleResolves | message-bus-macros/src/codegen.rs:43-83 | a topic's k-th publish goes to the k-th enclosing channel with a value built only from arms of the unions from that module inwards |
| Codegen.GenTopicsResolve | message-bus-macros/src/codegen.rs:94-100 | the topic handles of a generated module each publish along the chain of enclosing modules with values built from arms of their unions |
| Codegen.GenSubTopicResolves | message-bus-macros/src/codegen.rs:85-151 | in a generated module and every module inside it, each union has an arm for each topic and child, and every forwarded value resolves |
| Codegen.GeneratedHandlesResolve | message-bus-macros/src/codegen.rs:216-225 | for any tree, every variant a generated `publish` wraps its payload in is an arm of the enum it names |
| Codegen.ExampleCapacity | make-message-bus/examples/basic.rs:19-26 | the `SubTopic8` channel of the example gets capacity 30 + 1 + 40 + 1 = 72 |
| Broadcast.Oldest | make-message-bus/src/lib.rs:22 | a bounded channel retains at most `capacity` messages, and exactly that many once more were sent |
| Broadcast.Read | make-message-bus/src/lib.rs:52-56 | a read lags exactly when the cursor is outside the retained window and jumps to its start; it is empty exactly at the end of the log; otherwise it delivers the message at the cursor |
| Broadcast.NoLagTwice | make-message-bus/src/lib.rs:51-58 | after a lag the next read does not lag again |
| Broadcast.LagThenReceive | make-message-bus/src/lib.rs:51-58 | after a lag the next read delivers the oldest retained message |
| Broadcast.Channel.constructor | make-message-bus/src/lib.rs:22 | a new channel has the given capacity, an empty log and no receiver |
| Broadcast.Channel.Send | make-message-bus/src/lib.rs:35 | a send succeeds and is logged exactly when a receiver exists |
| Broadcast.Channel.Subscribe | make-message-bus/src/lib.rs:28 | a new receiver starts at the end of the log and is counted |
| Broadcast.Receiver.constructor | make-message-bus/src/lib.rs:28 | a receiver starts after every message already sent |
| Broadcast.Receiver.TryRecv | make-message-bus/src/lib.rs:52 | a receive returns exactly `Read`'s outcome and moves the cursor accordingly |
| MessageBus.RetryReadMeaning | make-message-bus/src/lib.rs:50-59 | retrying over lags returns nothing exactly when nothing is unread, and otherwise the oldest retained unread message; the lag counted is the distance skipped |
| MessageBus.RetryReadCatchesUp | make-message-bus/src/lib.rs:50-59 | after the retry loop the receiver is inside the retained window |
| MessageBus.Topic.New | make-message-bus/src/lib.rs:21-23 | a new topic owns a fresh channel of the given capacity, zero included |
| MessageBus.Topic.Subscribe | make-message-bus/src/lib.rs:26-31 | a subscriber starts at the end of the log with no missed messages |
| MessageBus.Topic.Publish | make-message-bus/src/lib.rs:34-36 | on a channel of positive capacity, publishing never fails; the message is logged exactly when a subscriber exists |
| MessageBus.Subscriber.constructor | make-message-bus/src/lib.rs:26-31 | a subscriber starts with a zero missed-message count |
| MessageBus.Subscriber.TryRecv | make-message-bus/src/lib.rs:50-59 | the loop returns `RetryRead`'s value and adds every lag to the missed-message count |
| MessageBus.Subscriber.Recv | make-message-bus/src/lib.rs:62-70 | with a message available, returns `RetryRead`'s message and adds every lag to the missed-message count |
| MessageBus.Subscriber.IsEmpty | make-message-bus/src/lib.rs:73-75 | a subscriber is empty exactly when a `try_recv` would return nothing |
| MessageBus.Subscriber.MessagesLost | make-message-bus/src/lib.rs:78-83 | returns the count missed since the last call and resets it to 0 |
| MessageBus.LagScenario | make-message-bus/src/lib.rs:50-83 | a subscriber four messages behind on a capacity-2 topic gets the third message, then learns of 2 lost, then of none |
| AsyncBus.LatestOnly | async-bus/src/lib.rs:44-53 | with capacity 1, a read that finds anything unread returns the latest message published |
| AsyncBus.Topic.New | async-bus/src/lib.rs:21-23 | every topic's channel has capacity 1 |
| AsyncBus.Topic.Subscribe | async-bus/src/lib.rs:26-28 | a subscriber starts at the end of the log |
| AsyncBus.Topic.Publish | async-bus/src/lib.rs:31-33 | publishing never fails; the message is logged exactly when a subscriber exists |
| AsyncBus.Subscriber.constructor | async-bus/src/lib.rs:26-28 | a subscriber wraps the receiver |
| AsyncBus.Subscriber.TryRecv | async-bus/src/lib.rs:44-53 | the loop skips lags silently and returns `RetryRead`'s value |
| AsyncBus.Subscriber.Recv | async-bus/src/lib.rs:56-64 | with a message available, skips lags and returns `RetryRead`'s message |
| AsyncBus.Subscriber.IsEmpty | async-bus/src/lib.rs:67-69 | a subscriber is empty exactly when a `try_recv` would return nothing |
| AsyncBus.SkipScenario | async-bus/src/lib.rs:44-53 | a subscriber three messages behind gets only the third, then nothing |
| AsyncAst.ParseEntry | async-bus-macros/src/ast.rs:44-76 | an accepted entry consumes at least one and at most all of the remaining tokens |
| AsyncAst.ParseAstNodes | async-bus-macros/src/ast.rs:33-87 | the loop returns exactly what the recursive grammar gives |
| AsyncAst.ParseEntryAt | async-bus-macros/src/ast.rs:44-76 | one loop iteration yields exactly the specification entry and its length |
| AsyncAst.ParseEntriesAt | async-bus-macros/src/ast.rs:78-83 | after an entry, the stream either ends, fails with a missing-comma error, or continues after the comma |
| AsyncAstProperties.ParseEntryOfRender | async-bus-macros/src/ast.rs:44-76 | every well-formed declaration parses back to its entry, in exactly three tokens |
| AsyncAstProperties.RoundTrip | async-bus-macros/src/ast.rs:33-87 | rendering well-formed declarations and parsing them yields the tree they denote |
| AsyncAstProperties.ParseRendered | async-bus-macros/src/ast.rs:9-11 | `parse` inverts rendering |
| AsyncAstProperties.EmptyInput | async-bus-macros/src/ast.rs:33-87 | the empty stream parses to the empty tree |
| AsyncAstProperties.LeadingColonRejected | async-bus-macros/src/ast.rs:44-49 | an entry starting with `::` is rejected |
| AsyncAstProperties.CapacityRejected | async-bus-macros/src/ast.rs:51 | a bracketed capacity after the path is a missing-`=>` error |
| AsyncAstProperties.GenericsIgnored | async-bus-macros/src/ast.rs:53-60 | generic arguments on a topic name are accepted and dropped |
| AsyncAstProperties.SubTopicNamedByPath | async-bus-macros/src/ast.rs:61-70 | a sub-topic keeps its whole `module::Name` path as its name |
| AsyncAstProperties.LongPathRejected | async-bus-macros/src/ast.rs:71-76 | a path of three or more segments is an unsupported form |
| AsyncAstProperties.MissingCommaRejected | async-bus-macros/src/ast.rs:78-83 | any token other than a comma after an entry is an error |
| AsyncAstProperties.AbstractKeepsOrder | async-bus-macros/src/ast.rs:53-70 | topics and sub-topics are appended in source order |
| AsyncAstProperties.TestTreeShape | async-bus-macros/src/ast.rs:121-161 | the unit test's stream parses to exactly the expected tree: 2 root topics, 1 sub-topic with 3 topics and 1 sub-topic, and an innermost level of 3 topics, each named and typed as the test's lookups expect |
| AsyncAstProperties.CapacityErrorFixture | async-bus-macros/ui/capacity_error.rs:3-8 | the fixture with capacities is rejected with a missing-`=>` error |
| AsyncAstProperties.GenericSubTopicAccepted | async-bus-macros/ui/generic_subtopic.rs:3-7 | a sub-topic path with generic arguments is accepted, and the arguments stay in its name |
| AsyncAnalysis.CheckTopicsForUniqueness | async-bus-macros/src/analysis.rs:6-14 | appends one error per repeated topic name |
| AsyncAnalysis.CheckSubtopicsForUniqueness | async-bus-macros/src/analysis.rs:16-32 | appends, for each sub-topic, the errors inside it and then its own duplicate-path error |
| AsyncAnalysis.SubTopicStep | async-bus-macros/src/analysis.rs:19-30 | one loop iteration extends the error list by one more sibling's contribution |
| AsyncAnalysis.Analyze | async-bus-macros/src/analysis.rs:34-50 | accepts exactly when no error is collected; otherwise the first error followed by all errors |
| AsyncAnalysis.SubTopicErrorsEmpty | async-bus-macros/src/analysis.rs:16-32 | siblings give no error exactly when their paths are distinct and each subtree is clean |
| AsyncAnalysis.NodeErrorsEmpty | async-bus-macros/src/analysis.rs:6-32 | a level is clean exactly when topic names and sub-topic paths are distinct at every depth |
| AsyncAnalysis.AnalyzeAcceptsIff | async-bus-macros/src/analysis.rs:34-50 | a tree is accepted exactly when every level, the root included, is clean; any number of roots is allowed |
| AsyncAnalysis.TopicRepeatCount | async-bus-macros/src/analysis.rs:6-14 | a topic name occurring n > 0 times at one level is reported n - 1 times |
| AsyncAnalysis.DoubleToplevelAccepted | async-bus-macros/ui/double_toplevel.rs:3-10 | two root sub-topics, and distinct topics at the root, are accepted |
| AsyncAnalysis.RootTopicsChecked | async-bus-macros/src/analysis.rs:38 | a repeated topic name at the root is reported |
| AsyncAnalysis.ModuleDistinguishes | async-bus-macros/src/analysis.rs:25-30 | sub-topics with the same name in different modules are not duplicates |
| AsyncAnalysis.DoubleSubTopicErrors | async-bus-macros/ui/double_subtopic.rs:3-19 | the fixture is rejected with exactly the duplicate sub-topics `Topic` and then `TopicErr` |
| Driver.MakeMessageBus | message-bus-macros/src/lib.rs:16-32 | parse, then analyze, then generate; the first failing stage's error is the result |
| Driver.AcceptedExpansion | message-bus-macros/src/lib.rs:17-27 | an accepted expansion has at most one root module, which is not re-exported while every module inside it is, and whose channel holds at least one message per topic of the tree |
| Driver.EmptyRootExpansion | message-bus-macros/src/lib.rs:17-27 | a lone empty root sub-topic expands to one module with an empty union and a channel of capacity 0 |
| Driver.EnumArmsDistinct | message-bus-macros/src/codegen.rs:9-41 | in a block the analysis accepts, the arms of the generated union are distinct exactly when no topic shares its name with a sibling sub-topic |
| Driver.SharedNameAccepted | message-bus-macros/src/analysis.rs:6-32 | a block with a topic `X` and a sub-topic `X` passes the analysis, and its union gets two arms named `X` |

## Left out

- The Rust tokens that are generated are not modelled. The generator is modelled as the declarations it emits: modules, unions, channels, publish bodies and re-exports. Spans, `syn` error messages and the `subscribe` functions carry nothing to prove.
- `write_expansion_to_file` and `calculate_hash` (`message-bus-macros/src/lib.rs:34-58`) are left out: they do file I/O and hashing for debugging.
- Codegen.FindTotalCapacity: the sum is over unbounded integers, so a `usize` overflow of the capacity sum is not modelled.
- MessageBus.Subscriber.TryRecv: the `u64` missed-message counter is unbounded here, so its wrap-around is not modelled. The same goes for MessageBus.Subscriber.Recv and MessageBus.Subscriber.MessagesLost.
- MessageBus.Subscriber.Recv: requires a message to be available, because waiting for a publish is not modelled. The same goes for AsyncBus.Subscriber.Recv.
- Broadcast.Oldest: tokio rounds a channel's capacity up to a power of two, and this is not modelled. The scenarios use capacities 1 and 2, where the two agree.
- The `Closed` outcome of a receive is not modelled. The topic owns its sender for the whole program, and the source marks that branch unreachable.
- `Lazy` initialisation of a topic's channel is not modelled. A `Topic` creates its channel when constructed.
- MessageBus.Topic.Subscribe: requires a positive capacity. Capacity 0, which the generator emits for a sub-topic with no topic below it, makes tokio panic at the channel's first use, and a panic is not modelled. The same goes for MessageBus.Topic.Publish.
- Dropping a `Subscriber` is not modelled. In tokio a drop lowers the receiver count, and once the last receiver is gone a publish is discarded; here `receivers` never decreases, so such a publish is still logged. No receiver, remaining or later, can observe the difference: a new subscriber starts at the tail.
- Ast.ParseEntryAt is a factoring of the loop body of `parse_ast_nodes`, not a separate function of the source.
- Ast.ParseCapacity: when tokens are left over after the literal inside `[...]`, `syn` records its own error and raises it only after the whole stream has been parsed. Here the `UnexpectedToken` error is returned at once. The inputs accepted and rejected are the same, but when a later entry has an error of its own, the source reports that later error instead: `A [5 x] => u8, B [0] => u8` gives the zero-capacity error of `B`.
- Tokens that `syn` would reject before the macro sees them are not represented.
- The code generator of `async-bus-macros` (`async-bus-macros/src/codegen.rs`) and its entry point are not part of this model. Only that crate's parser and analyzer are modelled.
- The `check_if_topic_exists` test helper of `async-bus-macros/src/ast.rs:103-119` is not modelled. It has the same shape as the one modelled for `message-bus-macros`.
- The prototypes in `src/main.rs` and `message-bus/src/syntax_test.rs` are not part of this model. They are hand-written experiments, not the library.
- The runtime examples are modelled only as far as the lemmas cite them (the fan-out and capacity of `make-message-bus/examples/basic.rs`). The async runtime, printing and task spawning in the examples are left out.
