# xml.c in Dafny

A model of `xml.c`, a small XML tree library for C, with proofs about it.

The library has four parts:

- an entity codec: `XML_escape` and `XML_unescape`, for `&lt;` `&gt;` `&amp;` `&quot;`;
- a two-pass serializer: `XML_strlen` computes the exact output length, and `XML_as_text` fills a buffer of exactly that size;
- first-match lookups: `XML_get_attr` and `XML_get_child`;
- a recursive-descent parser: `XML_parse_tag`, `XML_parse` and `XML_parse_n`, with the cursor helpers `XML_isnamechar`, `XML_extract_until` and `XML_eatws`.

The model keeps the source's shape.

- **Node.** An `XML` value is the datatype `Node = Text(text) | Element(name, attrs, children)` (module `Tree`). The source's `is_str` union pun is not used.
- **C strings.** A C string is a `string`. Reading `*p` is `Chars.At(s, p)`, which yields NUL past the end. So in the parser's cursor scans (`Scanner`, `Grammar`, `Parser`), which read through `At`, the end of the input and an embedded NUL both stop the scan, as the terminator does in C. The entity codec and the length count read the whole sequence instead (see Left out).
- **Specification functions.** Pure functions specify each stage:
  - `Entities.Escape` and `Entities.Unescape`;
  - `Serializer.Measure` and `Serializer.Serialize`;
  - `Scanner.SkipWs` and `Scanner.Extract`;
  - `Grammar.TagAt`, `Grammar.AttrsAt`, `Grammar.ContentAt` and `Grammar.DocumentOf`. These follow `XML_parse_tag` branch by branch. A `goto ERR_NEW`/`ERR_PROP` becomes `Fail`.
- **Loop code.** The loops in the source become methods with loops and invariants. Each is proved equal to its specification function:
  - `Entities.EscapeString` and `Entities.UnescapeString` fill a `char` array through a write index.
  - `Serializer.Strlen` accumulates the length.
  - `Serializer.AsText` allocates an array of `Strlen(n)` characters, writes into it through `ri`, and can never write out of its bounds.
  - `Parser.ParseTag` and `Parser.ParseContent` advance a cursor and grow the attribute and child lists.
  - `Tree.GetAttr` and `Tree.GetChild` return early from their loops.

The proved properties:

- `Unescape(Escape(s)) == s`, and unescaping never lengthens a string. An `&` that starts none of the four entities passes through unescaping, so escaping after unescaping is not the identity.
- `XML_strlen` is the exact length of the text `XML_as_text` writes.
- The serializer's layout: `<name attrs/>`, or `<name attrs>children</name>`, with attributes written as ` name="escaped"`.
- Lookups return the first match.
- Every tree the parser returns is well formed.
- Parsing reads back what the serializer writes, for every well-formed element, and nothing may follow it. A tree with adjacent text children is read back with those texts merged (`Merging.Normalize`), and the merged tree is written exactly like the original.
- Each kind of input the parser refuses is refused, and a failure anywhere fails the whole document, so no partial tree is returned.
- `<name attrs/>` and `<name attrs></name>` give the same childless element, for every valid name and attribute list.
- The trees of `XML_test` (module `Demo`) are well formed and read back from their own text, and its lookups return the child and value its comments name.

## Model

| member | source | states |
|---|---|---|
| Chars.IsSpace | xml.c:311 | definition: the ASCII white space `isspace` accepts in the C locale; its property is `Scanner.SkippedSpace` |
| Chars.IsNameChar | xml.c:294-296 | definition: not NUL, `>`, `/`, `"`, `=` or white space; its properties are `Scanner.ExtractNameNeverFails` and `Shape.ExtractedName` |
| Chars.IsntNameChar | xml.c:297 | definition: the negation of `IsNameChar`, the stop test for names; its property is `Scanner.ExtractedClean` |
| Chars.IsQuote | xml.c:298 | definition: the stop test for attribute values; its properties are `Scanner.ExtractedClean` and `Shape.AttrClean` |
| Chars.IsLt | xml.c:299 | definition: the stop test for text children; its property is `Shape.TextClean` |
| Chars.At | xml.c:316-318 | reading `*p` gives the character at `p` inside the input and NUL past its end; a non-NUL result is always an in-bounds character |
| Tree.Build | xml.c:245-276 | `XML_tag` over two sequences: an element with the given name, the attribute pairs in order and the children in order; it is well formed exactly when the arguments are |
| Tree.GetAttr | xml.c:278-284 | not found exactly when no attribute has the name; otherwise the value of the first attribute with that name |
| Tree.GetChild | xml.c:285-292 | not found exactly when no element child has the name; otherwise the first element child with that name, text children skipped |
| Memory.Copy | xml.c:206 | `memcpy` into the buffer: the prefix becomes the old prefix followed by the source, the rest is unchanged |
| Memory.Store | xml.c:203 | one `r[ri++] = c` store: the prefix grows by `c`, the rest is unchanged |
| Entities.EscapedLength | xml.c:97-108 | the count `XML_strlen` makes for a string: never less than the string's length; its other properties are `Entities.Escape` and `Entities.EscapedLen` |
| Entities.Escape | xml.c:131-147 | the escaped text is exactly as long as `XML_strlen` counts for a string (4 for `<` `>`, 5 for `&`, 6 for `"`, 1 otherwise), and non-empty for non-empty input |
| Entities.Unescape | xml.c:149-194 | the decoded text is never longer than its input, the bound the buffer at line 150 relies on |
| Entities.UnescapeFrom | xml.c:153-191 | decoding from offset `i` yields at most `|s| - i` characters, and at least one while input remains |
| Entities.DecodedAt | xml.c:154-190 | one step of the decoder consumes at least one character and never runs past the input |
| Entities.EscapeAppend | xml.c:136-144 | escaping works character by character: escaping a concatenation concatenates the escapes |
| Entities.EscapeAvoidsDelimiters | xml.c:136-144 | escaped text holds no `<`, `>` or `"`, and no NUL when its input has none |
| Entities.EscapePlain | xml.c:142 | text without `<` `>` `&` `"` is escaped to itself |
| Entities.UnescapeFromShift | xml.c:153-191 | decoding a suffix does not depend on what came before it |
| Entities.UnescapeNoNul | xml.c:153-191 | decoding text without NUL yields text without NUL |
| Entities.UnescapeEntity | xml.c:155-190 | each of the four entities decodes to its character, and decoding continues after it |
| Entities.UnescapeEscape | xml.c:131-194 | `XML_unescape(XML_escape(s)) == s` for every `s` |
| Entities.UnescapePlain | xml.c:153-154 | text without `&` is copied through unchanged |
| Entities.LiteralAt | xml.c:154-190 | where no `&` is followed by `lt;`, `gt;`, `amp;` or `quot;`, one step of the decoder copies one character, `&` included |
| Entities.UnescapeLiteral | xml.c:153-191 | text in which no `&` starts one of the four entities is decoded to itself |
| Entities.EscapeLengthensAmp | xml.c:97-108 | the escaped length of text holding `&` is greater than its length |
| Entities.EscapeAfterUnescapeGrows | xml.c:131-194 | for text holding an `&` that starts no known entity, unescape returns it unchanged and escape then makes it longer, so escape after unescape is not the identity |
| Entities.EscapeAfterUnescapeDiffers | xml.c:131-194 | the instance `&x;`: it unescapes to itself and escapes to `&amp;x;` |
| Entities.EscapedLen | xml.c:97-108 | the counting loop of `XML_strlen` on a string returns the escaped length |
| Entities.EscapeStep | xml.c:136-144 | the escape of one more character extends the escape of the prefix by that character's entity |
| Entities.PutEscaped | xml.c:137-142 | one case of the escape switch writes exactly that character's entity and advances `xi` by its width |
| Entities.EscapeString | xml.c:131-147 | the buffer-filling loop of `XML_escape` produces `Escape(s)` |
| Entities.DecodeAt | xml.c:154-190 | the nested entity tests at `in[i]` produce the decoded character and leave `i` on the last character consumed |
| Entities.UnescapeString | xml.c:149-194 | the buffer-filling loop of `XML_unescape` produces `Unescape(s)` |
| Scanner.SkipWs | xml.c:311 | `XML_eatws` stops at the first non-space at or after the cursor, within the input |
| Scanner.SkippedSpace | xml.c:311 | everything `XML_eatws` passes over is white space |
| Scanner.ScanUntil | xml.c:301-302 | the scan of `XML_extract_until` stops at NUL or at a character the predicate accepts, within the input |
| Scanner.ScannedClean | xml.c:301 | everything the scan passes over is neither NUL nor accepted |
| Scanner.Extract | xml.c:300-309 | on success the cursor stands within the input on a character `f` accepts, and the text is everything from the start up to it, none of it NUL or accepted; it fails exactly when a NUL (or the end of the input) comes first and `f` does not accept NUL |
| Scanner.ExtractNameNeverFails | xml.c:294-310 | name extraction never fails, and yields a valid (non-empty) name exactly when the cursor is on a name character |
| Scanner.ExtractedClean | xml.c:300-309 | extracted text holds no NUL and no character the predicate accepts |
| Scanner.EatWs | xml.c:311 | the loop of `XML_eatws` computes `SkipWs` |
| Scanner.ExtractUntil | xml.c:300-309 | the loop of `XML_extract_until` computes `Extract` |
| Serializer.Serialize | xml.c:196-242 | definition of the text `XML_as_text` writes; its properties are `Serializer.MeasureIsLength`, `Serializer.AsText`, `RoundTrip.SerializeThenParse` and `Merging.NormalizeWrites` |
| Serializer.Measure | xml.c:95-129 | definition of the count `XML_strlen` makes; its properties are `Serializer.MeasureIsLength` and `Serializer.Strlen` |
| Serializer.MeasureIsLength | xml.c:95-129 | the length `XML_strlen` computes for a node is exactly the length of its serialized text |
| Serializer.AttrsMeasureIsLength | xml.c:122-127 | the per-attribute `4 + name + escaped value` sum is the length of the attributes' text |
| Serializer.ChildrenMeasureIsLength | xml.c:110-116 | the sum of the children's lengths is the length of their concatenated text |
| Serializer.AttrsAppend | xml.c:208-220 | attributes are written in order, one after another |
| Serializer.ChildrenAppend | xml.c:223-228 | children are written in order, one after another |
| Serializer.AttrsSnoc | xml.c:208-220 | one more loop iteration appends one attribute's text and consumes its length |
| Serializer.ChildrenSnoc | xml.c:223-228 | one more loop iteration appends one child's text and consumes its length |
| Serializer.Strlen | xml.c:95-129 | `XML_strlen` returns the node's measure: escaped length for text; 3 + name for an empty element, 5 + 2·name + children otherwise; plus each attribute |
| Serializer.ChildrenStrlen | xml.c:113-116 | the children loop of `XML_strlen` sums the children's measures |
| Serializer.AttrsStrlen | xml.c:122-127 | the attribute loop of `XML_strlen` sums the attributes' measures |
| Serializer.WriteAttrHead | xml.c:209-214 | writes ` name="` at `ri`, within the buffer |
| Serializer.WriteAttr | xml.c:209-219 | writes one attribute's text at `ri`, within the buffer |
| Serializer.WriteAttrs | xml.c:208-220 | the attribute loop writes all attributes' text, within the buffer |
| Serializer.WriteChild | xml.c:224-227 | writes one child's text at `ri`, within the buffer |
| Serializer.WriteChildren | xml.c:223-228 | the children loop writes all children's text, within the buffer |
| Serializer.WriteEndTag | xml.c:229-233 | writes `</name>` at `ri`, within the buffer |
| Serializer.WriteStartTag | xml.c:203-220 | writes `<`, the name and the attributes, within the buffer |
| Serializer.WriteContent | xml.c:221-233 | writes `>`, the children and the end tag, within the buffer |
| Serializer.WriteEmptyEnd | xml.c:236-237 | writes `/>` at `ri`, within the buffer |
| Serializer.WriteEnd | xml.c:221-238 | writes the element's ending for its number of children, within the buffer |
| Serializer.AsText | xml.c:196-242 | `XML_as_text` on a buffer of exactly `XML_strlen(n)` characters writes `Serialize(n)` and never past the buffer |
| Serializer.ElementAsText | xml.c:200-241 | the element branch of `XML_as_text` fills its buffer with `Serialize(n)` exactly |
| Grammar.DocumentOf | xml.c:412-417 | definition: the root `XML_parse_tag` reads at offset 0 when it runs to the end of the input, otherwise invalid; its properties are `Shape.ValidDocument`, `RoundTrip.SerializeThenParse`, `RoundTrip.TrailingTextRejected`, `Failures.WholeInput` and `Merging.SerializeThenParseMerged` |
| Grammar.AttrAt | xml.c:326-340 | a parsed attribute consumes at least one character and stays within the input |
| Grammar.AttrsAt | xml.c:324-343 | the attribute loop stops within the input, on a character that is not a name character |
| Grammar.CloseMismatch | xml.c:372-374 | the close-tag name comparison stops at the first differing character, or matches the whole name |
| Grammar.CloseTagAt | xml.c:366-376 | an accepted close tag ends past its `/` and within the input |
| Grammar.TagAt | xml.c:315-323 | a parsed element consumes at least one character and stays within the input |
| Grammar.ElementEnd | xml.c:344-362 | the end of a start tag, with its content, stays within the input |
| Grammar.ContentAt | xml.c:362-404 | every accepted content loop ends strictly after its start and within the input |
| Parser.ParseAttr | xml.c:326-340 | the attribute steps over the cursor compute `AttrAt` |
| Parser.ParseAttrs | xml.c:324-343 | the attribute loop, growing its list, computes `AttrsAt` |
| Parser.ParseTag | xml.c:315-411 | `XML_parse_tag` computes `TagAt` |
| Parser.ParseCloseTag | xml.c:366-376 | the close-tag branch computes `CloseTagAt` |
| Parser.ParseContentStep | xml.c:363-403 | one iteration of the content loop either finishes with the loop's result or advances the cursor without changing it |
| Parser.ParseContent | xml.c:362-404 | the content loop, growing its list, computes `ContentAt` |
| Parser.Parse | xml.c:412-417 | `XML_parse` computes `DocumentOf` |
| Parser.ParseN | xml.c:418-423 | `XML_parse_n` parses the first `n` characters |
| Shape.ExtractedName | xml.c:320-321 | a non-empty extracted name is a valid name |
| Shape.AttrClean | xml.c:326-338 | a parsed attribute has a valid name and a value without NUL |
| Shape.AttrsClean | xml.c:324-343 | every parsed attribute has a valid name and a value without NUL |
| Shape.TextClean | xml.c:397-399 | a parsed text child is non-empty, holds no NUL and is followed by `<` |
| Shape.TagWellFormed | xml.c:315-411 | every element the parser returns is well formed |
| Shape.AppendChild | xml.c:390-402 | appending a well-formed child that is not text after text keeps the child list well formed |
| Shape.ContentWellFormed | xml.c:362-404 | the content loop returns well-formed children, never two texts in a row |
| Shape.ValidDocument | xml.c:412-417 | a valid document starts with `<` at offset 0, its root is a well-formed element, and it runs to the end of the input |
| RoundTrip.AttrRoundTrip | xml.c:209-219 | the parser reads one written attribute back as itself |
| RoundTrip.AttrsRoundTrip | xml.c:324-343 | the attribute loop reads the written attributes back, in order, and stops where they end |
| RoundTrip.StartTagRoundTrip | xml.c:315-323 | a written start tag is read back with its name and attributes |
| RoundTrip.ElementRoundTrip | xml.c:315-411 | an element's text, wherever it stands, is read back as that element and consumed exactly |
| RoundTrip.EndRoundTrip | xml.c:344-362 | a written element end (`/>` or content and end tag) is read back with the element's children |
| RoundTrip.ContentEndRoundTrip | xml.c:356-362 | written content followed by the end tag is read back as the children |
| RoundTrip.TextReads | xml.c:397-399 | a written text child is read back, unescaped, as itself |
| RoundTrip.CloseReads | xml.c:366-376 | the written end tag `</name>` is accepted as the element's close tag |
| RoundTrip.ChildrenReads | xml.c:362-404 | written children followed by the end tag are read by the content loop as those children |
| RoundTrip.ContentReads | xml.c:362-404 | the content loop over written children returns them after those read before |
| RoundTrip.SerializeThenParse | xml.c:444-449 | `XML_parse(XML_as_text(n))` gives back `n` for every well-formed element |
| RoundTrip.TrailingTextRejected | xml.c:412-417 | anything after a serialized element, even white space, makes the document invalid |
| RoundTrip.ParseThenSerialize | xml.c:444-449 | a document the parser accepts, written back out, parses to the same tree |
| RoundTrip.EmptyElementForms | xml.c:344-375 | for every valid name and attributes, `<name attrs/>` and `<name attrs></name>` both parse to the childless element with those attributes |
| RoundTrip.OpenCloseRead | xml.c:315-375 | a text holding `<name attrs></`, the name and `>` is read from offset 0 as the childless element and consumed to its end |
| RoundTrip.OpenCloseDocument | xml.c:412-417 | `<name attrs></name>` is a valid document whose root is the childless element |
| RoundTrip.EmptyContentAt | xml.c:344-375 | `></name>` after a start tag ends the element with no children, just past the final `>` |
| Merging.JoinTextWrites | xml.c:223-228 | putting a child in front of children, merging it with a leading text, does not change the written text |
| Merging.MergedWrites | xml.c:224-227 | two adjacent texts are written exactly like their concatenation as one text |
| Merging.NormalizeWrites | xml.c:196-242 | a node is written exactly like its normal form, where adjacent texts are merged |
| Merging.NormalizeChildrenWrite | xml.c:223-228 | a child list is written exactly like its normal form, which is empty exactly when the list is |
| Merging.JoinTextWellFormed | xml.c:390-402 | putting a well-formed child in front of well-formed children, merging texts, leaves no two texts in a row |
| Merging.NormalizeWellFormed | xml.c:315-411 | the normal form of a tree with valid names, no NUL and no empty text is well formed, and an element stays an element |
| Merging.NormalizeChildrenWellFormed | xml.c:362-404 | the normal form of clean children is a well-formed child list with no two texts in a row |
| Merging.NormalizeKeepsWellFormed | xml.c:315-411 | a well-formed tree is its own normal form |
| Merging.NormalizeChildrenKeep | xml.c:362-404 | a well-formed child list is its own normal form |
| Merging.SerializeThenParseMerged | xml.c:444-449 | `XML_parse(XML_as_text(n))` for every element with valid names, no NUL and no empty text is the valid document whose root is `n` with adjacent texts merged; that root is written like `n`, and is `n` itself when `n` is well formed |
| Merging.BuildThenParse | xml.c:245-276 | an element built by `XML_tag` from valid names, values without NUL and such children is read back with adjacent texts merged, and as itself when its children have no two texts in a row |
| Demo.BuiltWellFormed | xml.c:428-438 | an element of the shape `XML_test` builds, two attributes then a text and an empty child element, is well formed when its names are valid and its strings clean |
| Demo.MyXmlRoundTrip | xml.c:428-439 | the tree `XML_test` builds is well formed, and the text it prints for it parses back to that tree |
| Demo.Lookups | xml.c:440-443 | the lookups of `XML_test`: the child `child-tag` is the empty element, written `<child-tag/>`, and the attribute `attr-name-2` is `attr-value-2` |
| Demo.NestedWellFormed | xml.c:444 | a document of the shape `XML_test` parses is well formed when its names are valid and its strings clean |
| Demo.WwxtpRoundTrip | xml.c:444-449 | the tree of the document `XML_test` parses is well formed, and its text parses back to it |
| Failures.ContentAfter | xml.c:362-404 | the content loop fails whatever children came before, or returns them followed by the same children at the same offset: no partial list |
| Failures.AttrsAfter | xml.c:324-343 | the attribute loop fails whatever attributes came before, or returns them followed by the same attributes |
| Failures.CloseTagDecides | xml.c:366-376 | a `<` `/` in content succeeds exactly when the element's own name follows byte for byte and then `>`, after optional white space; it then returns the children read so far |
| Failures.ChildFails | xml.c:388-390 | a child element that fails fails the content loop |
| Failures.TextToEnd | xml.c:397-398 | text with no `<` after it fails the content loop |
| Failures.ContentEndsWithGt | xml.c:362-404 | accepted content always ends with the `>` of a close tag |
| Failures.EndEndsWithGt | xml.c:344-362 | an accepted start-tag end, with or without content, ends with `>` |
| Failures.ElementEndsWithGt | xml.c:315-411 | every accepted element ends with `>` |
| Failures.WholeInput | xml.c:412-417 | a valid document without NUL starts with `<` and ends with `>` |
| Samples.NameA | xml.c:315-321 | the start `<a` is read as the name `a` |
| Samples.EmptyElementSpellings | xml.c:344-375 | `<a/>` and `<a></a>` both give the childless element `a` |
| Samples.MismatchedCloseTag | xml.c:372-374 | `<a></b>` is invalid |
| Samples.FailingChild | xml.c:388-390 | `<a><b></a>` is invalid, because the child `b` fails |
| Samples.MissingEquals | xml.c:329 | `<a x/>` is invalid |
| Samples.UnquotedValue | xml.c:331 | `<a x=y/>` is invalid |
| Samples.UnterminatedValue | xml.c:332-334 | `<a x="y/>` is invalid |
| Samples.EndAfterStartTag | xml.c:361 | `<a>` is invalid |
| Samples.TextToEnd | xml.c:397-398 | `<a>text` is invalid |
| Samples.TrailingSpace | xml.c:415-416 | `<a/> ` is invalid |

## Left out

- `XML_tag`'s variadic, NULL-terminated calling convention and its `exit(1)` on an odd attribute count: `Tree.Build` takes two sequences instead.
- Memory management (`GC_malloc`, `GC_realloc`): allocation cannot fail in the model.
- The `XML` union and `XML_is_str`: `Node` is a datatype. The pun misreads an empty string as a tag. This affects empty text children and empty attribute values in `XML_strlen` and `XML_escape`, and the source documents it as a bug. The model treats empty text as text of length 0.
- The global failure state `failp`/`failspot`. It is process-wide, offset by the post-increments, and stale when trailing content is rejected. A failure carries no position in the model.
- `isspace` depends on the locale. White space is the fixed ASCII set space, tab, newline, vertical tab, form feed and carriage return.
- `XML_test` and the commented-out `main`: console I/O is left out. Module `Demo` states the trees `XML_test` builds and parses, that each reads back from its own text, and what its two lookups return. The literal texts it prints and the literal document it parses are not written out as strings in the model: for the parsed document, the general lemmas `RoundTrip.SerializeThenParse` and `RoundTrip.ParseThenSerialize` cover it, but the model does not state that this particular literal is the text of `Demo.Wwxtp`.
- `XML_extract_until` takes a function pointer. The model passes one of the three predicates the source uses (`Scanner.Stop`).
- `XML_parse_n` copies and NUL-terminates its input. `Parser.ParseN` parses the first `n` characters and does not model the copy.
- Serializer.Strlen: does not model the 32-bit wrap-around of `uint`. Lengths are unbounded, so the result is exact only for outputs shorter than 2^32 characters.
- RoundTrip.SerializeThenParse: holds for well-formed trees; `Merging.SerializeThenParseMerged` extends it to trees with adjacent texts, which read back merged. Both still ask for valid names, no NUL in text or values and no empty text. A NUL ends a C string, an invalid name cannot be read back by the parser, and an empty text child is written as nothing, so `<a></a>` with one empty text reads back as `<a></a>` with none. The source makes no promise for such trees.
- Entities.Escape, Entities.Unescape, Entities.EscapedLength, Entities.EscapedLen, Entities.EscapeString, Entities.UnescapeString, Serializer.Measure and Serializer.Strlen: read the whole sequence, past any NUL in it, where C stops at the first NUL. They agree with the source only on strings without NUL, which are the only strings a C string can hold.
