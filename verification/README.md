# simple_wml structural checker, in Dafny

`simple_wml/src/de.rs` is a recursive-descent checker. It runs over the token stream of a
WML-like document. The stream has three kinds of token:

- `Attr { key, value }`;
- `Open { open_key }`;
- `Close { close_key }`.

Two cursors take turns reading the stream:

- **The attribute cursor** (`AttributeDeserializer::accept`) reads one node's attributes. Their
  keys must strictly increase in byte order: the cursor keeps the last key read, starting from
  the empty key, and aborts when `last_key >= key`. Each accepted attribute goes to the
  visitor's `visit_attribute`. At the node's first `Open` it calls `start_children` and hands
  over to the children cursor.
- **The children cursor** (`ChildrenDeserializer::accept` and `accept_child`) reads the node's
  children. For each `Open(k)` it asks `visit_child(k)` for an attribute visitor, then reads
  the child's body with a fresh attribute cursor whose enclosing key is `k`. Once children have
  started, any `Attr` aborts.

Both cursors end a node the same way:

- `Close(k)` succeeds only when there is an enclosing key and it equals `k`.
- End of stream succeeds only at the root.

Every failure is one `None` that every enclosing frame returns unchanged.

The model is a set of pure, mutually recursive functions over `seq<Token>`. Each returns an
`Outcome`, which says:

- whether the cursor accepted (`Some(())`) or aborted (`None`);
- how many tokens it had read;
- every visitor call made up to then.

The visitors are an abstract oracle. It answers each `visit_attribute` and `visit_child` call
and sees the full history of earlier calls. `start_children` cannot fail and is recorded only
as an event.

The model proves:

- The parse accepts exactly the token streams that spell a well-formed tree whose visitor calls
  the visitor admits. For an always-accepting visitor, that is exactly the well-formed
  documents. A well-formed tree has:
  - sorted attributes before children;
  - matching `Open`/`Close` pairs;
  - its end at the root.
- In that case the visitor sees exactly the tree's calls, in document order.
- No cursor reads past the point where it stops.
- A call the visitor refuses is the last call of the parse, and the parse stops on the token
  that call was about.

Modules, in dependency order:

| file | module | contents |
|---|---|---|
| `keys.dfy` | `Keys` | byte keys and their lexicographic order |
| `tokens.dfy` | `Options`, `Tokens` | tokens and the "this segment sits at this position" predicate |
| `visitors.dfy` | `Visitors` | visitor calls, the oracle, and what it admits |
| `deserializer.dfy` | `Deserializer` | the two cursors and the top-level parse |
| `grammar.dfy` | `Grammar` | trees, their token spelling and their visitor calls |
| `consumption.dfy` | `Consumption` | well-formed input is consumed piece by piece |
| `completeness.dfy` | `Completeness` | an accepting cursor read a well-formed piece |
| `correctness.dfy` | `Correctness` | the main theorems |
| `locality.dfy` | `Locality` | nothing past the stopping point is read |
| `refusal.dfy` | `Refusal` | what happens when the visitor refuses a call |
| `examples.dfy` | `Examples` | concrete streams and their outcomes |

## Model

| member | source | states |
|---|---|---|
| Deserializer.AcceptAttributes | simple_wml/src/de.rs:16-50 | the attribute cursor reads forward and never past the end; it reads at least one token when any remain; it only adds visitor calls; at the root, success means the whole stream was read; inside a child, success means the last token read was `Close` of the enclosing key |
| Deserializer.AcceptChildren | simple_wml/src/de.rs:62-68 | the children cursor reads the first child and then the rest; it reads forward and only adds calls; success ends at the end of the stream (root) or right after the enclosing key's `Close` |
| Deserializer.ChildrenLoop | simple_wml/src/de.rs:69-88 | the children loop reads at least one token when any remain; success ends at the end of the stream (root) or right after the enclosing key's `Close` |
| Deserializer.AcceptChild | simple_wml/src/de.rs:90-97 | `visit_child(k)` is called before anything else; a child that succeeds ends right after `Close(k)` |
| Deserializer.Parse | simple_wml/src/de.rs:9-20 | a fresh root cursor reads at least one token of a non-empty stream; it succeeds only having read every token |
| Keys.LessIsLexicographic | simple_wml/src/de.rs:24 | the key order is exactly lexicographic order on bytes with a proper prefix first, the order of `Vec<u8>` |
| Keys.NotLessIsGreaterOrEqual | simple_wml/src/de.rs:24-26 | "`key` is not strictly above the last key" is exactly the source's abort test `last_key >= key` |
| Keys.LessIrreflexive | simple_wml/src/de.rs:24 | no key is strictly above itself, so a repeated key aborts |
| Keys.LessTransitive | simple_wml/src/de.rs:24 | the key order is transitive |
| Keys.LessTotal | simple_wml/src/de.rs:24 | any two different keys are ordered one way or the other |
| Keys.EmptyIsLeast | simple_wml/src/de.rs:12-26 | the initial empty `last_key` is below every key except the empty key |
| Grammar.SortedAboveIsStrictlyIncreasing | simple_wml/src/de.rs:23-29 | comparing each key with its predecessor only, as the cursor does, holds exactly when the whole run is strictly increasing |
| Visitors.AcceptAll | simple_wml/src/de.rs:100-109 | the visitor pair that accepts everything is permissive |
| Visitors.AdmitsAppend | simple_wml/src/de.rs:100-109 | a sequence of calls is admitted exactly when its first part is admitted and its second part is admitted after the first |
| Visitors.PermissiveAdmitsAll | simple_wml/src/de.rs:100-109 | a visitor that accepts every call admits every sequence of calls |
| Consumption.AttributesConsumed | simple_wml/src/de.rs:21-30 | a sorted, admitted run of attributes is read to its end; each is reported once, in order |
| Consumption.NextAttribute | simple_wml/src/de.rs:23-29 | after such a run, an attribute not strictly above the last key aborts right after it with no call; one the visitor refuses aborts right after that call; any other becomes the new last key |
| Consumption.FirstAttribute | simple_wml/src/de.rs:12-29 | a first attribute with the empty key aborts with no visitor call; every other first key passes the order check |
| Consumption.ElementConsumed | simple_wml/src/de.rs:90-97 | a well-formed, admitted child is read up to and including its matching `Close`, whatever follows, with exactly its calls |
| Consumption.AfterNode | simple_wml/src/de.rs:40-84 | after a well-formed node: end of stream succeeds exactly at the root; `Close(k)` succeeds exactly when `k` is the enclosing key; an `Attr` after children aborts; in every case the visitor saw exactly the node's calls |
| Consumption.NodeConsumed | simple_wml/src/de.rs:16-88 | a well-formed, admitted node is read to its end; parsing then continues in the attribute cursor if the node has no children, and in the children loop if it has some |
| Consumption.ChildrenRunConsumed | simple_wml/src/de.rs:31-37 | once a node's attributes are read, its children are read to their end by the children cursor |
| Consumption.ChildrenConsumed | simple_wml/src/de.rs:69-76 | well-formed, admitted children are read one after the other, each completely before the next |
| Consumption.AbortPropagates | simple_wml/src/de.rs:68-96 | a child that aborts ends its parent with the very same outcome, whether it is the first child or a later one |
| Completeness.AttributesComplete | simple_wml/src/de.rs:16-50 | an accepting attribute cursor read exactly a well-formed node with keys above its start key, followed by the enclosing `Close`; it made exactly that node's calls, and the visitor admits them |
| Completeness.ChildrenLoopComplete | simple_wml/src/de.rs:69-88 | an accepting children loop read exactly a run of well-formed children (at least one if it started on an `Open`), followed by the enclosing `Close`; it made exactly their calls, and they are admitted |
| Completeness.ChildComplete | simple_wml/src/de.rs:90-97 | an accepted child is a well-formed element with that tag, read up to its `Close`, with exactly its calls, all admitted |
| Correctness.TreeParses | simple_wml/src/de.rs:16-97 | the tokens of a well-formed tree whose calls the visitor admits parse successfully; the visitor sees those calls and nothing else |
| Correctness.ParsedTree | simple_wml/src/de.rs:16-97 | a successful parse read a well-formed tree; its calls are exactly that tree's calls, and the visitor admits them |
| Correctness.ParseIsGrammar | simple_wml/src/de.rs:16-97 | a parse succeeds if and only if the stream spells a well-formed tree whose calls the visitor admits |
| Correctness.PermissiveParseIsDocument | simple_wml/src/de.rs:16-97 | with a visitor that accepts everything, a parse succeeds exactly on well-formed documents |
| Correctness.Unbalanced | simple_wml/src/de.rs:40-84 | a stream with more `Open` than `Close` tokens, or the reverse, never parses |
| Locality.AttributesLocal | simple_wml/src/de.rs:21-50 | the attribute cursor's outcome depends only on the tokens it read, and on whether the stream ends where it stopped |
| Locality.ChildrenLocal | simple_wml/src/de.rs:62-88 | the same for the children cursor |
| Locality.LoopLocal | simple_wml/src/de.rs:69-88 | the same for the children loop |
| Locality.ChildLocal | simple_wml/src/de.rs:90-97 | the same for `accept_child` |
| Locality.ParseLocal | simple_wml/src/de.rs:16-97 | a whole parse depends only on the tokens it read, and on whether the stream ends where it stopped (`next()` returning `None` is itself a read) |
| Refusal.AttributesAnswered | simple_wml/src/de.rs:21-30 | every call the attribute cursor makes is admitted, except possibly the last; if the last is refused, the cursor aborted right after the token that call was about |
| Refusal.ChildrenAnswered | simple_wml/src/de.rs:62-68 | the same for the children cursor |
| Refusal.LoopAnswered | simple_wml/src/de.rs:69-88 | the same for the children loop |
| Refusal.ChildAnswered | simple_wml/src/de.rs:90-97 | the same for `accept_child`, whose first call is `visit_child` |
| Refusal.ParseAnswered | simple_wml/src/de.rs:29 | in a whole parse, every call before a refused one was admitted; the refused call is the last one; the parse stopped right after that call's token |
| Refusal.AttributesUnread | simple_wml/src/de.rs:21-50 | when the attribute cursor's last call is refused, its outcome depends only on the tokens it read, whatever follows them, including where the stream ends |
| Refusal.ChildrenUnread | simple_wml/src/de.rs:62-88 | the same for the children cursor |
| Refusal.LoopUnread | simple_wml/src/de.rs:69-88 | the same for the children loop |
| Refusal.ChildUnread | simple_wml/src/de.rs:90-97 | the same for `accept_child` |
| Refusal.RefusalStopsReading | simple_wml/src/de.rs:16-97 | a parse that ends on a refused call aborted after reading at least one token; changing anything after the refused token, including where the stream ends, leaves the outcome unchanged |
| Examples.SortedAttributes | simple_wml/src/de.rs:23-30 | two attributes in increasing order are both reported, in order |
| Examples.UnsortedAttributes | simple_wml/src/de.rs:24-25 | an out-of-order attribute aborts and is never reported |
| Examples.RepeatedKey | simple_wml/src/de.rs:24-25 | a repeated key aborts |
| Examples.EmptyKeyFirst | simple_wml/src/de.rs:12-26 | a first attribute with the empty key aborts |
| Examples.OneChild | simple_wml/src/de.rs:90-97 | a child with one attribute, closed by its own key, is accepted |
| Examples.MismatchedClose | simple_wml/src/de.rs:40-43 | a close tag with another key aborts |
| Examples.AttributeInsideChild | simple_wml/src/de.rs:90-97 | an attribute inside a child belongs to that child |
| Examples.AttributeAfterChild | simple_wml/src/de.rs:71-72 | back at the root after a child, an attribute aborts |
| Examples.EmptyStream | simple_wml/src/de.rs:45-46 | the empty stream is accepted |
| Examples.CloseAtRoot | simple_wml/src/de.rs:40-46 | a close tag at the root aborts, and so does a stream that ends inside a child |
| Examples.RefusedAttribute | simple_wml/src/de.rs:29 | a refused attribute aborts right after it, and the next attribute is neither read nor reported |
| Examples.RefusedChild | simple_wml/src/de.rs:96 | a refused child tag aborts right after its `Open` |

## Left out

- `crate::parser::Parser` and the lexer are not part of this model. Their `next()` is modelled as reading the next element of a token sequence, and `None` as reaching its end.
- Rust lifetimes and borrows, and the reuse of the `last_key` buffer through `clear()` and `extend`, are memory management. `last_key` is a plain value here.
- Concrete visitor implementations are left out. The visitors are an oracle that sees every earlier call of the parse. This covers any visitor whose answers depend on what it has been told so far.
- The typestate of the visitors is not modelled as separate objects: `start_children` consumes the attribute visitor and returns a children visitor, and `visit_child` returns a new attribute visitor. The single oracle over the whole history subsumes them.
- Stack depth and recursion limits are a runtime concern and are not modelled.
- A cursor's result is richer than the source's `Option<()>`. It also carries the number of tokens read and the visitor calls made, so that "nothing further was read" and "the visitor never saw it" can be stated.
