# Verified models of the entitlement client's JSON library and of the entitlement store

The software entitlement client compiles in a JSON library (`json.hpp`, or its reduced form
`json_vc11.hpp` for older compilers); the server keeps entitlements in a store that serves concurrent
requests. This project models both in Dafny and proves what their documentation promises, or, where a
promise does not hold for every input, exactly when it does.

Run `dafny verify dfyconfig.toml` to check everything.

## What is modelled

* **Documents** (`Json`, `ByteStrings`, `Decimal`, `Locations`, `Order`, `OrderCases`, `FloatValues`). A document is a datatype;
  strings are byte strings, an object is a map whose keys are visited in byte order wherever the order
  of `std::map` shows, and a floating-point number is its IEEE 754 binary64 pattern. `operator==`
  (with its conversions between number types) and `operator<` are predicates. A C++ reference into a
  document is the list of steps that lead to it; reading and writing through it are `Fetch` and `Store`.
* **JSON Pointer** (`Pointer`, `Access`, `AccessCases`): splitting, escaping by substring replacement, and
  the three ways to resolve a pointer, two of which create what is missing.
* **Patch and diff** (`Patch`, `PatchLaws`, `DiffProof`, `DiffLimits`) and **flatten and unflatten** (`Flatten`,
  `FlattenIndex`, `FlattenProof`).
* **CBOR and MessagePack** (`Binary`, `Cbor`, `CborReader`, `MsgPack`, `MsgPackReader`). The decoders
  are specified as total functions; the readers are the source's procedures, with an index that is
  advanced by reference and wraps at 2^64, and agree with the functions. `CborItems` and `MsgPackItems`
  describe the two formats by trees of items, independently of both, and prove that the decoders accept
  exactly what the formats define and that the encoders write it.
* **JSON text.** `Serializer` and `Strings` write; `Scanner` is the automaton that re2c generated, state
  by state; `TokenGrammar`, `NumberGrammar` and `Tokens` describe the tokens independently of it and
  prove that the automaton recognises exactly those; `Lexer` runs the automaton on a buffer that is
  refilled and padded; `StringTokens` decodes strings and `StringMeaning` says, by code points, what they
  mean; `Layout` relates pretty-printed to compact text; `TokenReader` holds the last token for a parser;
  `Parser` gives the value at a position of the text and the parser object that follows it with one token
  of lookahead; `Grammar` and `GrammarProof` describe JSON texts by derivation trees, independently of
  the parser, and prove that it accepts exactly those; `TextProof` proves the round trip of writing and
  parsing. `PrunedParser` is the parser of `json_vc11.hpp`, with its relation to the full one;
  `Acceptance` says exactly which texts both accept, and `StaleMembers` exactly which they read alike.
* **The entitlement store.** `StoreProtocol` is a transition system in which every access to the shared
  dictionary is one atomic step and the steps of any number of calls interleave; records are objects on
  a heap because the swap compares references. `Store` is the class itself, for calls that run without
  interference. `Entitlements` is the immutable record.

Procedures with loops and updated state are methods with loops, proved to compute a function; the laws
are lemmas about those functions.

## Where the code and its documentation disagree

The model follows the code.

* `j == j.flatten().unflatten()` is documented for every `j` without empty containers
  (`json.hpp:13206-13210`), but a null that meets the token `0` becomes an array, so that an object whose
  first visited key is "0" does not come back. `FlattenProof.UnflattenFlatten` gives the exact condition.
* `source.patch(diff(source, target)) == target` is documented for all documents
  (`json.hpp:13551-13555`). It fails if the target holds a NaN (`DiffLimits.NaNIsNotRestored`), and if
  an index above INT_MAX has to be written; `DiffLimits.DiffThenPatchIff` is exact.
* The two parsers are meant to be interchangeable for what the client reads. They are for members that
  are strings or null (`PrunedParser.SameMember`), but with repeated keys the reduced parser can return
  a value that a later array, number or boolean has replaced (`StaleMembers.PrunedIsProjectionIff`). It
  also accepts numbers out of range, which the full parser rejects with error 406
  (`Acceptance.HugeNumberDiffers`); `Acceptance.SameTextsAccepted` is exact.
* `to_unicode` documents error 103; no input can cause it (`Strings.NeverTooLarge`).
* `operator<` is described as an order; unsigned numbers from 2^63 on can form cycles with signed ones
  (`Order.Cycle`), and equality with floats is not transitive (`Order.RoundingTies`).
  `Order.StrictWeakOrderIff` and, for integers, `Order.IntegersOrderedIff` say exactly for which sets of
  numbers it is one.
* `to_msgpack` has no header for more than 2^32 - 1 elements and writes none; `MsgPack.RoundTrip` is exact.

## Model

| member | source | states |
|---|---|---|
| `Json.JEqReflexive` | src/Microsoft.Azure.Batch.SoftwareEntitlement.Client.Native/json.hpp:6094-6167 | A document equals itself exactly if it holds no NaN |
| `ByteStrings.SortedKeysSorted` | src/Microsoft.Azure.Batch.SoftwareEntitlement.Client.Native/json.hpp:1501-1505 | The keys of an object are visited in strictly ascending byte order |
| `ByteStrings.SortedUnique` | src/Microsoft.Azure.Batch.SoftwareEntitlement.Client.Native/json.hpp:1501-1505 | That order is determined by the set of keys alone |
| `Decimal.StoiToDecimal` | src/Microsoft.Azure.Batch.SoftwareEntitlement.Client.Native/json.hpp:12612-12661 | `std::stoi` gives back a written index up to INT_MAX and reports every larger one |
| `Order.Trichotomy` | src/Microsoft.Azure.Batch.SoftwareEntitlement.Client.Native/json.hpp:6258-6334 | For all documents without NaN, floats and unsigned numbers of any size included: at most one of `a < b` and `b < a` holds, and neither holds exactly if `a == b` |
| `Order.Transitivity` | src/Microsoft.Azure.Batch.SoftwareEntitlement.Client.Native/json.hpp:6258-6334 | Less, greater and tied compose transitively through nested arrays, objects and mixed types, whenever they do for the numbers inside |
| `Order.StrictWeakOrderIff` | src/Microsoft.Azure.Batch.SoftwareEntitlement.Client.Native/json.hpp:6258-6334 | For every set of numbers: `operator<` is a strict weak order whose ties are exactly `operator==`, on all documents with numbers from the set, if and only if the set holds no NaN and any three of its numbers are ordered transitively |
| `Order.IntegersOrderedIff` | src/Microsoft.Azure.Batch.SoftwareEntitlement.Client.Native/json.hpp:6258-6334 | For sets of integers that is so if and only if the set has no unsigned `h` from 2^63 on, signed `i` and unsigned `l` below 2^63 with `h - 2^64 <= i <= l` |
| `Order.Cycle` | src/Microsoft.Azure.Batch.SoftwareEntitlement.Client.Native/json.hpp:6321-6328 | Such numbers form a cycle: 2^63 < 0 < 1 < 2^63 |
| `Order.RoundingTies` | src/Microsoft.Azure.Batch.SoftwareEntitlement.Client.Native/json.hpp:6296-6328 | With floats ties are not transitive: 2^53 and 2^53 + 1 both equal the double 2^53, and differ |
| `Order.MixedComparison` | src/Microsoft.Azure.Batch.SoftwareEntitlement.Client.Native/json.hpp:6321-6328 | When exactly comparing a signed with an unsigned number agrees with their values |
| `OrderCases.TypesInOrder` | src/Microsoft.Azure.Batch.SoftwareEntitlement.Client.Native/json.hpp:368-389 | Null comes before booleans, these before numbers, then objects, arrays and strings |
| `OrderCases.ValuesInOrder` | src/Microsoft.Azure.Batch.SoftwareEntitlement.Client.Native/json.hpp:6258-6294 | Within one type: false before true, integers by value |
| `OrderCases.StringsInOrder` | src/Microsoft.Azure.Batch.SoftwareEntitlement.Client.Native/json.hpp:6258-6294 | Strings go by the first byte that differs; a proper prefix comes first |
| `OrderCases.ArraysInOrder` | src/Microsoft.Azure.Batch.SoftwareEntitlement.Client.Native/json.hpp:6258-6294 | Arrays go by the first elements that are not tied; a proper prefix comes first |
| `OrderCases.ObjectsInOrder` | src/Microsoft.Azure.Batch.SoftwareEntitlement.Client.Native/json.hpp:6258-6294 | Objects go by the first members, in key order, that are not tied |
| `OrderCases.FloatsInOrder` | src/Microsoft.Azure.Batch.SoftwareEntitlement.Client.Native/json.hpp:6258-6294 | Floats are less or equal as the values of their patterns are; a NaN is neither |
| `FloatValues.NaNPattern` | src/Microsoft.Azure.Batch.SoftwareEntitlement.Client.Native/json.hpp:6094-6167 | Which bit patterns are no numbers, by section 3.4 of IEEE 754 |
| `FloatValues.ConversionIsNearest` | src/Microsoft.Azure.Batch.SoftwareEntitlement.Client.Native/json.hpp:6305-6320 | The conversion of an integer to a double is exact up to 53 bits and otherwise gives the nearest value, the even one of two |
| `Pointer.ReplaceSubstring` | src/Microsoft.Azure.Batch.SoftwareEntitlement.Client.Native/json.hpp:12866-12878 | The in-place loop replaces every occurrence from left to right and does not look at what it has put in |
| `Pointer.EscapeIsEncoded` | src/Microsoft.Azure.Batch.SoftwareEntitlement.Client.Native/json.hpp:12881-12887 | The two replacement passes of `escape` encode a token character by character, as RFC 6901 section 3 defines |
| `Pointer.UnescapeIsDecoded` | src/Microsoft.Azure.Batch.SoftwareEntitlement.Client.Native/json.hpp:12890-12896 | On properly escaped tokens the two passes of `unescape` equal one left-to-right decoding (RFC 6901 section 4), so `~01` is `~1` |
| `Pointer.DecodedEncoded` | src/Microsoft.Azure.Batch.SoftwareEntitlement.Client.Native/json.hpp:12881-12896 | Encoding gives a properly escaped token that decodes to the original |
| `Pointer.EncodedDecoded` | src/Microsoft.Azure.Batch.SoftwareEntitlement.Client.Native/json.hpp:12881-12896 | Decoding a properly escaped token and encoding it gives the token |
| `Pointer.EscapeUnescape` | src/Microsoft.Azure.Batch.SoftwareEntitlement.Client.Native/json.hpp:12881-12896 | `escape(unescape(t)) == t` for properly escaped tokens |
| `Pointer.ProperlyEscaped` | src/Microsoft.Azure.Batch.SoftwareEntitlement.Client.Native/json.hpp:12829-12843 | The search for tildes accepts a token exactly if every tilde is followed by `0` or `1` |
| `Pointer.SplitLoop` | src/Microsoft.Azure.Batch.SoftwareEntitlement.Client.Native/json.hpp:12793-12851 | The loop over slashes computes the tokens or the error of the specification of `split` |
| `Pointer.SplitToString` | src/Microsoft.Azure.Batch.SoftwareEntitlement.Client.Native/json.hpp:12377-12399 | `split(to_string(tokens))` returns the tokens, for every list of byte strings |
| `Pointer.ToStringSplit` | src/Microsoft.Azure.Batch.SoftwareEntitlement.Client.Native/json.hpp:12377-12399 | A text that `split` accepts is the text of its tokens |
| `Pointer.ToStringInjective` | src/Microsoft.Azure.Batch.SoftwareEntitlement.Client.Native/json.hpp:12391-12399 | Different lists of tokens have different texts |
| `AccessCases.SplitIff` | src/Microsoft.Azure.Batch.SoftwareEntitlement.Client.Native/json.hpp:12793-12851 | Exactly the texts that are empty, or begin with a slash and have every tilde followed by 0 or 1, are pointers; errors 107 and 108 for the others |
| `AccessCases.EscapeByByte` | src/Microsoft.Azure.Batch.SoftwareEntitlement.Client.Native/json.hpp:12881-12887 | Byte by byte, a tilde is written as `~0`, a slash as `~1` and everything else as it is |
| `AccessCases.PointerText` | src/Microsoft.Azure.Batch.SoftwareEntitlement.Client.Native/json.hpp:12391-12399 | Every token is written escaped behind a slash |
| `Access.LocateChecked` | src/Microsoft.Azure.Batch.SoftwareEntitlement.Client.Native/json.hpp:12612-12661 | Where `at(ptr)` leads is a place inside the document |
| `Access.GetChecked` | src/Microsoft.Azure.Batch.SoftwareEntitlement.Client.Native/json.hpp:12612-12661 | The loop of `get_checked` reaches the place or the error of the specification |
| `Access.GrowTo` | src/Microsoft.Azure.Batch.SoftwareEntitlement.Client.Native/json.hpp:3924-3945 | Indexing an array makes it long enough for the index and no longer, keeps what is there and adds only nulls; an index inside changes nothing |
| `Access.Locate` | src/Microsoft.Azure.Batch.SoftwareEntitlement.Client.Native/json.hpp:12450-12604 | Where `operator[](ptr)` and `get_and_create` lead is a place inside the document they leave behind |
| `Access.GetMutable` | src/Microsoft.Azure.Batch.SoftwareEntitlement.Client.Native/json.hpp:12450-12604 | The loops of `get_and_create` and `get_unchecked`, on a document that grows under the reference, equal the specification |
| `Access.CheckedThenUnchecked` | src/Microsoft.Azure.Batch.SoftwareEntitlement.Client.Native/json.hpp:12532-12661 | Whenever `at(ptr)` succeeds, `operator[](ptr)` reaches the same place and leaves the document unchanged |
| `Access.LocateSnoc` | src/Microsoft.Azure.Batch.SoftwareEntitlement.Client.Native/json.hpp:12612-12661 | Resolving one more token resolves it in the value that the pointer leads to |
| `Access.LocateStore` | src/Microsoft.Azure.Batch.SoftwareEntitlement.Client.Native/json.hpp:12612-12661 | Writing at the end of a pointer does not change where the pointer leads |
| `Access.ResolveIndex` | src/Microsoft.Azure.Batch.SoftwareEntitlement.Client.Native/json.hpp:12632-12655 | A written index up to INT_MAX resolves to itself |
| `AccessCases.StoiReads` | src/Microsoft.Azure.Batch.SoftwareEntitlement.Client.Native/json.hpp:12632-12655 | `std::stoi` reads white space, an optional sign and digits, ignores what follows, and gives the number if it fits an `int` |
| `AccessCases.StoiRejects` | src/Microsoft.Azure.Batch.SoftwareEntitlement.Client.Native/json.hpp:12632-12655 | Without digits there it finds no number |
| `AccessCases.AtGoesOn` | src/Microsoft.Azure.Batch.SoftwareEntitlement.Client.Native/json.hpp:12612-12661 | `at` goes from an object to the member with the key and from an array to the element with the written index |
| `AccessCases.AtFails` | src/Microsoft.Azure.Batch.SoftwareEntitlement.Client.Native/json.hpp:12612-12661 | Each way for `at` to fail at a token, with its error: 401 to 404, 106, 109 and out of range |
| `AccessCases.LocateAppend` | src/Microsoft.Azure.Batch.SoftwareEntitlement.Client.Native/json.hpp:12450-12604 | Resolving a concatenated pointer is resolving its second part from where the first leads, also where both create |
| `AccessCases.StepIntoObject` | src/Microsoft.Azure.Batch.SoftwareEntitlement.Client.Native/json.hpp:12450-12604 | A missing key is added with a null |
| `AccessCases.StepIntoArray` | src/Microsoft.Azure.Batch.SoftwareEntitlement.Client.Native/json.hpp:12450-12604 | An array is filled up with nulls to have the written index |
| `AccessCases.StepBehindLast` | src/Microsoft.Azure.Batch.SoftwareEntitlement.Client.Native/json.hpp:12532-12604 | `-` appends a null for `operator[]`; `get_and_create` does not know it |
| `AccessCases.StepIntoNull` | src/Microsoft.Azure.Batch.SoftwareEntitlement.Client.Native/json.hpp:12456-12557 | When a null becomes an array and when an object |
| `AccessCases.StepFails` | src/Microsoft.Azure.Batch.SoftwareEntitlement.Client.Native/json.hpp:12450-12604 | The errors 106, 109 and out of range at an array |
| `AccessCases.StepToNegative` | src/Microsoft.Azure.Batch.SoftwareEntitlement.Client.Native/json.hpp:3924-3945 | A negative index becomes a size that no array can be filled up to; for -1 and an empty array the number of nulls to add wraps to zero |
| `AccessCases.StepIntoPrimitive` | src/Microsoft.Azure.Batch.SoftwareEntitlement.Client.Native/json.hpp:12450-12604 | Errors 404 and 313 at other values |
| `Locations.FetchStore` | src/Microsoft.Azure.Batch.SoftwareEntitlement.Client.Native/json.hpp:12532-12604 | Writing through a reference and reading it back; the last write wins; writing what is there changes nothing |
| `Locations.StoreFrame` | src/Microsoft.Azure.Batch.SoftwareEntitlement.Client.Native/json.hpp:12532-12604 | Writing through a reference leaves every place alone that is neither above nor below it |
| `Patch.ApplyPatch` | src/Microsoft.Azure.Batch.SoftwareEntitlement.Client.Native/json.hpp:13285-13543 | The loop over operations applies them one after the other and stops at the first error |
| `Patch.PatchAllAppend` | src/Microsoft.Azure.Batch.SoftwareEntitlement.Client.Native/json.hpp:13422-13543 | Applying two lists of operations is applying the first, then the second |
| `Patch.ComputeDiff` | src/Microsoft.Azure.Batch.SoftwareEntitlement.Client.Native/json.hpp:13577-13707 | `diff` emits the operations of its specification |
| `Patch.DiffArrays` | src/Microsoft.Azure.Batch.SoftwareEntitlement.Client.Native/json.hpp:13604-13646 | The three loops over arrays; removals are inserted at a fixed position and so come out last element first |
| `Patch.DiffObjects` | src/Microsoft.Azure.Batch.SoftwareEntitlement.Client.Native/json.hpp:13648-13690 | The two passes over the members, in key order |
| `PatchLaws.AddToArray` | src/Microsoft.Azure.Batch.SoftwareEntitlement.Client.Native/json.hpp:13354-13376 | `add` at an index up to the length inserts: the elements from there on move up by one; an index beyond gives error 401 |
| `PatchLaws.AppendToArray` | src/Microsoft.Azure.Batch.SoftwareEntitlement.Client.Native/json.hpp:13356-13360 | `add` at `-` appends |
| `PatchLaws.AddToObject` | src/Microsoft.Azure.Batch.SoftwareEntitlement.Client.Native/json.hpp:13340-13351 | `add` gives an object the member and leaves the others; null becomes an object |
| `PatchLaws.AddAtRoot` | src/Microsoft.Azure.Batch.SoftwareEntitlement.Client.Native/json.hpp:13326-13330 | `add` at the root replaces the document |
| `PatchLaws.AddCreates` | src/Microsoft.Azure.Batch.SoftwareEntitlement.Client.Native/json.hpp:13331-13351 | The first token must lead somewhere; what is missing behind it is created |
| `PatchLaws.RemoveFromArray` | src/Microsoft.Azure.Batch.SoftwareEntitlement.Client.Native/json.hpp:13388-13413 | `remove` takes out the element at the index: inserting it again gives the array back; an index out of range gives error 401 |
| `PatchLaws.RemoveFromObject` | src/Microsoft.Azure.Batch.SoftwareEntitlement.Client.Native/json.hpp:13388-13413 | `remove` takes out the member with the key, or gives error 403; the other members stay |
| `PatchLaws.RemoveNowhere` | src/Microsoft.Azure.Batch.SoftwareEntitlement.Client.Native/json.hpp:13388-13413 | The root cannot be removed, nor anything below a pointer that leads nowhere |
| `PatchLaws.NoIndex` | src/Microsoft.Azure.Batch.SoftwareEntitlement.Client.Native/json.hpp:13363-13413 | What `add` and `remove` report for a token that is no index |
| `PatchLaws.Replaces` | src/Microsoft.Azure.Batch.SoftwareEntitlement.Client.Native/json.hpp:13476-13481 | `replace` changes an existing value and nothing else |
| `PatchLaws.Moves` | src/Microsoft.Azure.Batch.SoftwareEntitlement.Client.Native/json.hpp:13483-13498 | `move` is the `remove` of an existing value followed by the `add` of it |
| `PatchLaws.Copies` | src/Microsoft.Azure.Batch.SoftwareEntitlement.Client.Native/json.hpp:13500-13508 | `copy` writes an existing value where `operator[]` leads |
| `PatchLaws.Tests` | src/Microsoft.Azure.Batch.SoftwareEntitlement.Client.Native/json.hpp:13510-13531 | `test` succeeds exactly if the pointer leads to an equal value, and changes nothing; errors 501 and those of malformed indices |
| `PatchLaws.Malformed` | src/Microsoft.Azure.Batch.SoftwareEntitlement.Client.Native/json.hpp:13425-13538 | Errors 104 and 105 for elements that are no operations, whatever is missing or unknown |
| `DiffProof.ReplaceHere` | src/Microsoft.Azure.Batch.SoftwareEntitlement.Client.Native/json.hpp:13476-13481 | `replace` at a resolving pointer changes that value and nothing else |
| `DiffProof.RemoveHere` | src/Microsoft.Azure.Batch.SoftwareEntitlement.Client.Native/json.hpp:13388-13414 | `remove` below a resolving pointer removes that child and changes nothing else |
| `DiffProof.AddHere` | src/Microsoft.Azure.Batch.SoftwareEntitlement.Client.Native/json.hpp:13324-13385 | `add` below a resolving pointer adds that child and changes nothing else |
| `DiffProof.RemovesWork` | src/Microsoft.Azure.Batch.SoftwareEntitlement.Client.Native/json.hpp:13619-13631 | Removals from the back: every index is still valid when its operation is applied |
| `DiffProof.AddsWork` | src/Microsoft.Azure.Batch.SoftwareEntitlement.Client.Native/json.hpp:13633-13643 | Additions at the end: every index is the length of the array at that moment |
| `DiffProof.ItemsWork` | src/Microsoft.Azure.Batch.SoftwareEntitlement.Client.Native/json.hpp:13606-13614 | The operations for the common elements replace each by the merged one, in place |
| `DiffProof.MembersWork` | src/Microsoft.Azure.Batch.SoftwareEntitlement.Client.Native/json.hpp:13650-13671 | The operations for the members of the source, one key at a time |
| `DiffProof.AddMembersWork` | src/Microsoft.Azure.Batch.SoftwareEntitlement.Client.Native/json.hpp:13673-13687 | The operations for the members that only the target has |
| `DiffProof.DiffWorks` | src/Microsoft.Azure.Batch.SoftwareEntitlement.Client.Native/json.hpp:13551-13707 | The operations that `diff` emits for the value at any pointer of any document turn that value, and nothing else, into the merged one |
| `DiffProof.MergedEqualsTarget` | src/Microsoft.Azure.Batch.SoftwareEntitlement.Client.Native/json.hpp:13551-13555 | The merged document equals the target exactly if the target holds no NaN |
| `DiffProof.DiffThenPatch` | src/Microsoft.Azure.Batch.SoftwareEntitlement.Client.Native/json.hpp:13551-13555 | `patch` succeeds on `diff(source, target)` while indices fit an `int`, and the result equals the target exactly if there is no NaN in it |
| `DiffLimits.DiffStaysBelow` | src/Microsoft.Azure.Batch.SoftwareEntitlement.Client.Native/json.hpp:13577-13707 | Every operation that `diff` emits for the value at a pointer points to that value or into it |
| `DiffLimits.DiffNotEmpty` | src/Microsoft.Azure.Batch.SoftwareEntitlement.Client.Native/json.hpp:13577-13707 | Documents that differ have at least one operation |
| `DiffLimits.StepFails` | src/Microsoft.Azure.Batch.SoftwareEntitlement.Client.Native/json.hpp:13285-13543 | No operation at or below an index above INT_MAX can be applied |
| `DiffLimits.DiffFails` | src/Microsoft.Azure.Batch.SoftwareEntitlement.Client.Native/json.hpp:13551-13707 | If some index that has to be written does not fit an `int`, the patch fails |
| `DiffLimits.NaNIsNotRestored` | src/Microsoft.Azure.Batch.SoftwareEntitlement.Client.Native/json.hpp:13551-13555 | The documented invariant fails for the target NaN: the patch applies, and the result is not equal to the target |
| `DiffLimits.DiffThenPatchIff` | src/Microsoft.Azure.Batch.SoftwareEntitlement.Client.Native/json.hpp:13551-13555 | `source.patch(diff(source, target)) == target` holds exactly if all indices that have to be written fit an `int` and the target holds no NaN |
| `Flatten.FlattenInto` | src/Microsoft.Azure.Batch.SoftwareEntitlement.Client.Native/json.hpp:12905-12956 | The recursive procedure adds exactly the entries of the value, under the prefix, to the result |
| `Flatten.FlattenDocument` | src/Microsoft.Azure.Batch.SoftwareEntitlement.Client.Native/json.hpp:13187-13192 | `flatten` gives the object of all entries |
| `Flatten.UnflattenDocument` | src/Microsoft.Azure.Batch.SoftwareEntitlement.Client.Native/json.hpp:12968-12994 | The loop of `unflatten` creates the places in key order and assigns the values, or reports the error of the specification |
| `FlattenIndex.EntryLeaf` | src/Microsoft.Azure.Batch.SoftwareEntitlement.Client.Native/json.hpp:12905-12956 | Every entry is a leaf of the document, named by its pointer |
| `FlattenIndex.LeafEntry` | src/Microsoft.Azure.Batch.SoftwareEntitlement.Client.Native/json.hpp:12905-12956 | Every leaf has an entry under its pointer |
| `FlattenIndex.LeafReached` | src/Microsoft.Azure.Batch.SoftwareEntitlement.Client.Native/json.hpp:12612-12956 | `at` on the original reaches a leaf if and only if every array index in its path is at most INT_MAX |
| `FlattenIndex.FlattenIsIndex` | src/Microsoft.Azure.Batch.SoftwareEntitlement.Client.Native/json.hpp:12612-12956 | For every document, whatever its keys: the entries are exactly the leaves, under distinct pointers that `split` accepts; `at` on the original with such a pointer succeeds if and only if its array indices fit an `int`, and returns the value, or an empty container where the entry is null |
| `FlattenProof.FirstOfObject` | src/Microsoft.Azure.Batch.SoftwareEntitlement.Client.Native/json.hpp:12968-12994 | Which entry below an object is visited first, although entries are visited in the order of their escaped text |
| `FlattenProof.ArrayNormal` | src/Microsoft.Azure.Batch.SoftwareEntitlement.Client.Native/json.hpp:12968-12994 | Arrays come back although `/10` is visited before `/2`, exactly if their elements do and their indices fit an `int` |
| `FlattenProof.ObjectNormal` | src/Microsoft.Azure.Batch.SoftwareEntitlement.Client.Native/json.hpp:12968-12994 | Objects come back exactly if their members do and a key "0" is not the first to be visited |
| `FlattenProof.UnflattenFlatten` | src/Microsoft.Azure.Batch.SoftwareEntitlement.Client.Native/json.hpp:13206-13210 | `unflatten(flatten(j))` is `j` with empty containers replaced by null, exactly if every object with the key "0" has a key whose entries come before it, and indices fit an `int` |
| `FlattenProof.ZeroKeyIsLost` | src/Microsoft.Azure.Batch.SoftwareEntitlement.Client.Native/json.hpp:12462-12475 | The documented invariant fails for `{"0": true}`, which comes back as an array |
| `Binary.ByteVector.AddToVector` | src/Microsoft.Azure.Batch.SoftwareEntitlement.Client.Native/json.hpp:7370-7412 | Appends the low bytes of a number in two's complement, most significant first |
| `Binary.BigEndianBytes` | src/Microsoft.Azure.Batch.SoftwareEntitlement.Client.Native/json.hpp:7370-7412 | The shifts and masks for each width give the digits to base 256 |
| `Binary.FromToBigEndian` | src/Microsoft.Azure.Batch.SoftwareEntitlement.Client.Native/json.hpp:7370-7462 | Reading what was written gives the number, reduced to the width |
| `Binary.LengthOkMeansInside` | src/Microsoft.Azure.Batch.SoftwareEntitlement.Client.Native/json.hpp:7997-8016 | The three tests of `check_length` accept exactly the ranges inside the vector, even where their sum wraps |
| `Binary.ReadNumber` | src/Microsoft.Azure.Batch.SoftwareEntitlement.Client.Native/json.hpp:7450-7462 | Succeeds exactly if all bytes are inside the vector, with a value below the capacity of the width |
| `Binary.GetFromVector` | src/Microsoft.Azure.Batch.SoftwareEntitlement.Client.Native/json.hpp:7450-7462 | The loop that fills the integer from its low byte upwards computes the big-endian value |
| `Binary.ReadBack` | src/Microsoft.Azure.Batch.SoftwareEntitlement.Client.Native/json.hpp:7370-7462 | A number written behind its first byte is read back, signed or unsigned |
| `Binary.ScaledValue` | src/Microsoft.Azure.Batch.SoftwareEntitlement.Client.Native/json.hpp:8756-8800 | Widening a half or single float by `ldexp` gives a double with the same value |
| `FloatValues.HalfKeepsValue` | src/Microsoft.Azure.Batch.SoftwareEntitlement.Client.Native/json.hpp:8756-8787 | A half float keeps its value, read by Appendix D of RFC 7049, and infinity and NaN stay what they are |
| `FloatValues.SingleKeepsValue` | src/Microsoft.Azure.Batch.SoftwareEntitlement.Client.Native/json.hpp:8789-8800 | A single float keeps its value |
| `Binary.CanonicalEqual` | src/Microsoft.Azure.Batch.SoftwareEntitlement.Client.Native/json.hpp:6094-6167 | A document and its form with non-negative numbers unsigned are equal exactly if there is no NaN |
| `Cbor.ToCbor` | src/Microsoft.Azure.Batch.SoftwareEntitlement.Client.Native/json.hpp:7720-7972 | `to_cbor` appends the encoding |
| `Cbor.WriteHeader` | src/Microsoft.Azure.Batch.SoftwareEntitlement.Client.Native/json.hpp:7720-7972 | The size classes of RFC 7049 section 2.1 for an initial byte and its argument |
| `Cbor.WriteArray` | src/Microsoft.Azure.Batch.SoftwareEntitlement.Client.Native/json.hpp:7890-7926 | Header, then the elements in order |
| `Cbor.WriteObject` | src/Microsoft.Azure.Batch.SoftwareEntitlement.Client.Native/json.hpp:7928-7965 | Header, then the members in key order |
| `Cbor.Decode` | src/Microsoft.Azure.Batch.SoftwareEntitlement.Client.Native/json.hpp:8340-8822 | Total on every vector and index; on success the next index is larger and inside the vector; a key byte gives a string |
| `Cbor.DecodeEncode` | src/Microsoft.Azure.Batch.SoftwareEntitlement.Client.Native/json.hpp:7720-8822 | Wherever an encoding stands in a vector, decoding gives the canonical document and stops exactly behind it |
| `Cbor.RoundTrip` | src/Microsoft.Azure.Batch.SoftwareEntitlement.Client.Native/json.hpp:7720-8822 | `from_cbor(to_cbor(j) + suffix)` gives a document equal to `j` (unless it holds a NaN) and consumes exactly the encoding |
| `Cbor.PrefixFree` | src/Microsoft.Azure.Batch.SoftwareEntitlement.Client.Native/json.hpp:7720-8822 | No encoding is a proper prefix of another, and equal encodings come from equal documents |
| `CborItems.ItemDecodes` | src/Microsoft.Azure.Batch.SoftwareEntitlement.Client.Native/json.hpp:8340-8822 | Every data item of RFC 7049 for integers, texts, arrays, maps, simple values and floats, in any width, of known or unknown length, is decoded to its meaning wherever it stands |
| `CborItems.DecodedItem` | src/Microsoft.Azure.Batch.SoftwareEntitlement.Client.Native/json.hpp:8340-8822 | Whatever is decoded is the writing of such an item with that meaning |
| `CborItems.DecodeIff` | src/Microsoft.Azure.Batch.SoftwareEntitlement.Client.Native/json.hpp:8340-8822 | `from_cbor` gives a document and stops at an index if and only if an item that means the document stands up to there |
| `CborItems.EncodesItem` | src/Microsoft.Azure.Batch.SoftwareEntitlement.Client.Native/json.hpp:7720-7972 | `to_cbor` writes the item of the document in the smallest widths |
| `CborItems.EncodedFirst` | src/Microsoft.Azure.Batch.SoftwareEntitlement.Client.Native/json.hpp:7720-7972 | The first byte of an encoding tells the type of the document and the sign of an integer, and is told by them |
| `CborItems.DecodedFirst` | src/Microsoft.Azure.Batch.SoftwareEntitlement.Client.Native/json.hpp:8340-8822 | The first byte of what is decoded tells its type, and is told by it |
| `CborReader.Reader.FromCbor` | src/Microsoft.Azure.Batch.SoftwareEntitlement.Client.Native/json.hpp:8340-8822 | The procedure with its index advanced by reference, wrapping at 2^64, agrees with the decoder in value, error and index |
| `CborReader.Reader.FromArgument` | src/Microsoft.Azure.Batch.SoftwareEntitlement.Client.Native/json.hpp:8340-8822 | The items with an argument; a length that wraps the index is caught by `check_length` |
| `CborReader.Reader.FromFloat` | src/Microsoft.Azure.Batch.SoftwareEntitlement.Client.Native/json.hpp:8756-8813 | Half, single and double floats |
| `CborReader.Reader.ReadItems` | src/Microsoft.Azure.Batch.SoftwareEntitlement.Client.Native/json.hpp:8340-8822 | The loop over the elements of an array of known length |
| `CborReader.Reader.ReadOpenItems` | src/Microsoft.Azure.Batch.SoftwareEntitlement.Client.Native/json.hpp:8340-8822 | The loop up to the break byte |
| `CborReader.Reader.ReadChunks` | src/Microsoft.Azure.Batch.SoftwareEntitlement.Client.Native/json.hpp:8340-8822 | The loop over the chunks of a text of unknown length |
| `CborReader.Reader.ReadKey` | src/Microsoft.Azure.Batch.SoftwareEntitlement.Client.Native/json.hpp:8064-8078 | `cbor_expect_string` and the key |
| `CborReader.Reader.ReadMembers` | src/Microsoft.Azure.Batch.SoftwareEntitlement.Client.Native/json.hpp:8340-8822 | The loop over the members of an object of known size |
| `CborReader.Reader.ReadOpenMembers` | src/Microsoft.Azure.Batch.SoftwareEntitlement.Client.Native/json.hpp:8340-8822 | The loop over members up to the break byte |
| `MsgPack.ToMsgPack` | src/Microsoft.Azure.Batch.SoftwareEntitlement.Client.Native/json.hpp:7474-7708 | `to_msgpack` appends the encoding |
| `MsgPack.WriteUnsigned` | src/Microsoft.Azure.Batch.SoftwareEntitlement.Client.Native/json.hpp:7565-7597 | The size classes of numbers that are not negative |
| `MsgPack.WriteNegative` | src/Microsoft.Azure.Batch.SoftwareEntitlement.Client.Native/json.hpp:7528-7562 | Negative fixints and the signed widths |
| `MsgPack.WriteText` | src/Microsoft.Azure.Batch.SoftwareEntitlement.Client.Native/json.hpp:7611-7642 | The size classes of strings |
| `MsgPack.WriteContainerHeader` | src/Microsoft.Azure.Batch.SoftwareEntitlement.Client.Native/json.hpp:7644-7700 | The size classes of arrays and maps |
| `MsgPack.WriteArray` | src/Microsoft.Azure.Batch.SoftwareEntitlement.Client.Native/json.hpp:7644-7671 | Header, then the elements in order |
| `MsgPack.WriteObject` | src/Microsoft.Azure.Batch.SoftwareEntitlement.Client.Native/json.hpp:7673-7700 | Header, then the members in key order |
| `MsgPack.Decode` | src/Microsoft.Azure.Batch.SoftwareEntitlement.Client.Native/json.hpp:8094-8323 | Total on every vector and index; on success the next index is larger and inside the vector; a key byte gives a string |
| `MsgPack.DecodeUnsigned` | src/Microsoft.Azure.Batch.SoftwareEntitlement.Client.Native/json.hpp:7474-8323 | Every number that is not negative comes back, across the size classes |
| `MsgPack.DecodeNegative` | src/Microsoft.Azure.Batch.SoftwareEntitlement.Client.Native/json.hpp:7474-8323 | Every negative number comes back, down to the smallest of each width |
| `MsgPack.DecodeEncode` | src/Microsoft.Azure.Batch.SoftwareEntitlement.Client.Native/json.hpp:7474-8323 | For sizes up to 2^32 - 1: wherever an encoding stands in a vector, decoding gives the canonical document and stops exactly behind it |
| `MsgPack.DecodeEncodeIff` | src/Microsoft.Azure.Batch.SoftwareEntitlement.Client.Native/json.hpp:7474-8323 | Decoding an encoding with any suffix gives the canonical document and stops behind the encoding if and only if no string, array or object has more than 2^32 - 1 elements |
| `MsgPack.RoundTrip` | src/Microsoft.Azure.Batch.SoftwareEntitlement.Client.Native/json.hpp:7474-8323 | `from_msgpack(to_msgpack(j) + suffix)` consumes exactly the encoding and gives the canonical document if and only if no size is above 2^32 - 1; that document equals `j` if and only if `j` holds no NaN |
| `MsgPack.DecodeSmall` | src/Microsoft.Azure.Batch.SoftwareEntitlement.Client.Native/json.hpp:8094-8323 | What the decoder returns has no string, array or object of more than 2^32 - 1 elements |
| `MsgPack.PrefixFree` | src/Microsoft.Azure.Batch.SoftwareEntitlement.Client.Native/json.hpp:7474-8323 | For sizes up to 2^32 - 1 no encoding is a proper prefix of another, and equal encodings come from equal documents |
| `MsgPack.NotPrefixFree` | src/Microsoft.Azure.Batch.SoftwareEntitlement.Client.Native/json.hpp:7611-7642 | Beyond that size they can be: a string that is too long for a header is written without one |
| `MsgPackItems.ItemDecodes` | src/Microsoft.Azure.Batch.SoftwareEntitlement.Client.Native/json.hpp:8094-8323 | Every MessagePack value other than binary data and extensions, in any width, is decoded to its meaning wherever it stands |
| `MsgPackItems.DecodedItem` | src/Microsoft.Azure.Batch.SoftwareEntitlement.Client.Native/json.hpp:8094-8323 | Whatever is decoded is the writing of such a value with that meaning |
| `MsgPackItems.DecodeIff` | src/Microsoft.Azure.Batch.SoftwareEntitlement.Client.Native/json.hpp:8094-8323 | `from_msgpack` gives a document and stops at an index if and only if a value that means the document stands up to there |
| `MsgPackItems.EncodesItem` | src/Microsoft.Azure.Batch.SoftwareEntitlement.Client.Native/json.hpp:7474-7708 | `to_msgpack` writes the value of the document in the smallest widths, for sizes up to 2^32 - 1 |
| `MsgPackReader.Reader.FromMsgPack` | src/Microsoft.Azure.Batch.SoftwareEntitlement.Client.Native/json.hpp:8094-8323 | The procedure with its index advanced by reference agrees with the decoder in value, error and index |
| `MsgPackReader.Reader.FromNumber` | src/Microsoft.Azure.Batch.SoftwareEntitlement.Client.Native/json.hpp:8162-8234 | The numbers behind a first byte |
| `MsgPackReader.Reader.FromLength` | src/Microsoft.Azure.Batch.SoftwareEntitlement.Client.Native/json.hpp:8094-8323 | Strings, arrays and maps |
| `MsgPackReader.Reader.ReadItems` | src/Microsoft.Azure.Batch.SoftwareEntitlement.Client.Native/json.hpp:8263-8285 | The loop over elements |
| `MsgPackReader.Reader.ReadKey` | src/Microsoft.Azure.Batch.SoftwareEntitlement.Client.Native/json.hpp:8034-8048 | `msgpack_expect_string` and the key |
| `MsgPackReader.Reader.ReadMembers` | src/Microsoft.Azure.Batch.SoftwareEntitlement.Client.Native/json.hpp:8287-8313 | The loop over members |
| `Serializer.FillNumberBuffer` | src/Microsoft.Azure.Batch.SoftwareEntitlement.Client.Native/json.hpp:6863-6881 | The digit loop fits the buffer and processes the number completely, as the source asserts |
| `Serializer.DumpInteger` | src/Microsoft.Azure.Batch.SoftwareEntitlement.Client.Native/json.hpp:6863-6893 | Writes the decimal text of any signed or unsigned 64-bit number |
| `Serializer.DumpTo` | src/Microsoft.Azure.Batch.SoftwareEntitlement.Client.Native/json.hpp:6449-6630 | Appends the text of the document, compact or with any indent |
| `Serializer.DumpArray` | src/Microsoft.Azure.Batch.SoftwareEntitlement.Client.Native/json.hpp:6527-6582 | All elements but the last with a comma, then the last |
| `Serializer.DumpObject` | src/Microsoft.Azure.Batch.SoftwareEntitlement.Client.Native/json.hpp:6456-6525 | All members but the last with a comma, then the last, in key order |
| `Layout.PrettyIsFormatted` | src/Microsoft.Azure.Batch.SoftwareEntitlement.Client.Native/json.hpp:6449-6630 | The text that `dump` writes with an indent is the text without one, with line breaks and indentation at brackets and commas and a space behind colons |
| `Layout.EscapeSpelling` | src/Microsoft.Azure.Batch.SoftwareEntitlement.Client.Native/json.hpp:6730-6845 | How every byte of a string is spelled: seven short escapes, `\u00` with two lower-case digits for other controls, everything else as it is |
| `Strings.EscapedLength` | src/Microsoft.Azure.Batch.SoftwareEntitlement.Client.Native/json.hpp:6646-6703 | `extra_space` is exactly the space that escaping adds |
| `Strings.WriteEscape` | src/Microsoft.Azure.Batch.SoftwareEntitlement.Client.Native/json.hpp:6730-6845 | One round of the `switch` writes one escape over the prepared backslashes |
| `Strings.DumpEscaped` | src/Microsoft.Azure.Batch.SoftwareEntitlement.Client.Native/json.hpp:6717-6849 | All writes stay inside the buffer, whose size is that of the string plus `extra_space`, and fill it with the escaped text |
| `Strings.NeverTooLarge` | src/Microsoft.Azure.Batch.SoftwareEntitlement.Client.Native/json.hpp:10309-10368 | `to_unicode` fails exactly for an unpaired high surrogate; its error 103 cannot occur |
| `Strings.DecodeEscaped` | src/Microsoft.Azure.Batch.SoftwareEntitlement.Client.Native/json.hpp:6717-11761 | Decoding undoes escaping, for every byte string |
| `StringMeaning.HexDigits` | src/Microsoft.Azure.Batch.SoftwareEntitlement.Client.Native/json.hpp:11719-11754 | The value of every hexadecimal digit in upper and lower case, and the lower-case digit that is written |
| `StringMeaning.UnitIsCharacter` | src/Microsoft.Azure.Batch.SoftwareEntitlement.Client.Native/json.hpp:10309-10368 | `to_unicode` writes a code unit that is no surrogate as one well-formed UTF-8 character with that code point (RFC 3629 section 3) |
| `StringMeaning.PairIsCharacter` | src/Microsoft.Azure.Batch.SoftwareEntitlement.Client.Native/json.hpp:10309-10368 | A surrogate pair is written as the character with the code point that the pair stands for |
| `StringMeaning.SameCodePoints` | src/Microsoft.Azure.Batch.SoftwareEntitlement.Client.Native/json.hpp:10309-10368 | A list of code points has one well-formed encoding |
| `StringMeaning.TokenSpells` | src/Microsoft.Azure.Batch.SoftwareEntitlement.Client.Native/json.hpp:11648-11761 | `get_string` on any string token gives the well-formed UTF-8 with the code points that its characters and escapes stand for (RFC 7159 section 7), or error 102 exactly if a surrogate stands alone |
| `StringTokens.EscapedStringEnd` | src/Microsoft.Azure.Batch.SoftwareEntitlement.Client.Native/json.hpp:10436-11484 | A quoted escaped byte string is a string token exactly if the bytes are well-formed UTF-8 (RFC 3629 section 4) |
| `StringTokens.GetStringDefined` | src/Microsoft.Azure.Batch.SoftwareEntitlement.Client.Native/json.hpp:11648-11761 | On a token of the scanner `get_string` gives a string or error 102, and never reads hexadecimal digits that are not there |
| `StringTokens.GetString` | src/Microsoft.Azure.Batch.SoftwareEntitlement.Client.Native/json.hpp:11648-11761 | The loop of `get_string` computes the decoded string or its error |
| `StringTokens.ReadEscaped` | src/Microsoft.Azure.Batch.SoftwareEntitlement.Client.Native/json.hpp:11669-11757 | One escape sequence |
| `StringTokens.ReadCodePoint` | src/Microsoft.Azure.Batch.SoftwareEntitlement.Client.Native/json.hpp:11719-11754 | One code point or surrogate pair, with the look beyond the token that stays inside the buffer |
| `Scanner.NulStops` | src/Microsoft.Azure.Batch.SoftwareEntitlement.Client.Native/json.hpp:10436-11484 | No state of the automaton moves over a NUL byte |
| `Scanner.OneStep` | src/Microsoft.Azure.Batch.SoftwareEntitlement.Client.Native/json.hpp:10436-11484 | One move of the automaton, whichever it is |
| `TokenGrammar.BodyExact` | src/Microsoft.Azure.Batch.SoftwareEntitlement.Client.Native/json.hpp:10436-11484 | Inside a string the automaton finds the closing quote exactly if only RFC 7159 section 7 characters over well-formed UTF-8 come before it |
| `TokenGrammar.StringTokens` | src/Microsoft.Azure.Batch.SoftwareEntitlement.Client.Native/json.hpp:10436-11484 | The string tokens are exactly the strings of RFC 7159 section 7 |
| `TokenGrammar.NumberTokens` | src/Microsoft.Azure.Batch.SoftwareEntitlement.Client.Native/json.hpp:10436-11484 | With its marker and `yyaccept` the automaton computes integer part, fraction and exponent |
| `NumberGrammar.NumberTokensAreLongest` | src/Microsoft.Azure.Batch.SoftwareEntitlement.Client.Native/json.hpp:10436-11484 | Number tokens are the longest match of the RFC 7159 section 6 grammar; an error means that nothing matches, or a leading zero |
| `Tokens.ByteClasses` | src/Microsoft.Azure.Batch.SoftwareEntitlement.Client.Native/json.hpp:10436-11484 | White space, digits, hexadecimal digits, escapes and exponent marks are the characters that RFC 7159 lists |
| `Tokens.ScanBlanks` | src/Microsoft.Azure.Batch.SoftwareEntitlement.Client.Native/json.hpp:10436-11484 | White space in front of a token does not count |
| `Tokens.ScanIsGrammar` | src/Microsoft.Azure.Batch.SoftwareEntitlement.Client.Native/json.hpp:10436-11484 | `scan` returns exactly the tokens of the lexical grammar, for every text and position |
| `Tokens.ScanBounds` | src/Microsoft.Azure.Batch.SoftwareEntitlement.Client.Native/json.hpp:10436-11484 | Every scan consumes at least one byte, and only the end of input reaches past the text |
| `Lexer.LookaheadSuffices` | src/Microsoft.Azure.Batch.SoftwareEntitlement.Client.Native/json.hpp:10436-11484 | The look-ahead that the generated code asks for covers the states that read without asking |
| `Lexer.Lexer.FillLineBuffer` | src/Microsoft.Azure.Batch.SoftwareEntitlement.Client.Native/json.hpp:11514-11580 | A refill keeps the unread text and the distances of the pointers, and pads with NUL |
| `Lexer.Lexer.Look` | src/Microsoft.Azure.Batch.SoftwareEntitlement.Client.Native/json.hpp:10436-11484 | The byte that the automaton looks at lies below the limit of the buffer and is the right byte of the text |
| `Lexer.Lexer.Jump` | src/Microsoft.Azure.Batch.SoftwareEntitlement.Client.Native/json.hpp:10436-11484 | One round at the buffer is one move of the automaton, and makes progress |
| `Lexer.Lexer.ScanToken` | src/Microsoft.Azure.Batch.SoftwareEntitlement.Client.Native/json.hpp:10436-11484 | The buffer-level loop terminates with the token of the specification |
| `StringMeaning.TokenTextIsDecoded` | src/Microsoft.Azure.Batch.SoftwareEntitlement.Client.Native/json.hpp:11648-11761 | What `get_string` gives is determined by the code points of the token alone |
| `TokenReader.StringTokenShape` | src/Microsoft.Azure.Batch.SoftwareEntitlement.Client.Native/json.hpp:11648-11651 | A string token has two quotes, and its interior decodes or reports error 102 |
| `Parser.ParseValue` | src/Microsoft.Azure.Batch.SoftwareEntitlement.Client.Native/json.hpp:12088-12281 | A value consumes at least one byte and ends inside the text |
| `Parser.ParseErrors` | src/Microsoft.Azure.Batch.SoftwareEntitlement.Client.Native/json.hpp:12059-12082 | On any bytes `parse` throws nothing but parse errors 101 and 102 and out-of-range 406 |
| `TokenReader.TokenReader.GetToken` | src/Microsoft.Azure.Batch.SoftwareEntitlement.Client.Native/json.hpp:12284-12288 | The last token is the next one of the text |
| `TokenReader.TokenReader.GetLastString` | src/Microsoft.Azure.Batch.SoftwareEntitlement.Client.Native/json.hpp:11648-11761 | `get_string` on the buffer is the decoded token of the text |
| `Parser.Parser.GetLastNumber` | src/Microsoft.Azure.Batch.SoftwareEntitlement.Client.Native/json.hpp:11932-11994 | `get_number` on the buffer is the number of the token, its overflow to a float, or its error |
| `Parser.Parser.ParseInternal` | src/Microsoft.Azure.Batch.SoftwareEntitlement.Client.Native/json.hpp:12088-12281 | The recursive descent with one token of lookahead gives the value or the error of the grammar and leaves the token behind it as the last one |
| `Parser.Parser.ParseObject` | src/Microsoft.Azure.Batch.SoftwareEntitlement.Client.Native/json.hpp:12094-12171 | The do-while loop over members |
| `Parser.Parser.ParseMember` | src/Microsoft.Azure.Batch.SoftwareEntitlement.Client.Native/json.hpp:12122-12160 | One round of that loop |
| `Parser.Parser.ParseArray` | src/Microsoft.Azure.Batch.SoftwareEntitlement.Client.Native/json.hpp:12173-12227 | The do-while loop over elements |
| `Parser.Parser.ParseText` | src/Microsoft.Azure.Batch.SoftwareEntitlement.Client.Native/json.hpp:12066-12081 | `parse` gives the value of the grammar; only white space may follow it, up to the end of the text or the first NUL in it |
| `Grammar.NumberTokenMeans` | src/Microsoft.Azure.Batch.SoftwareEntitlement.Client.Native/json.hpp:11932-11994 | A number token is read as the integer that its digits write if that fits 64 bits, and as what `strtod` gives otherwise |
| `GrammarProof.TreeParses` | src/Microsoft.Azure.Batch.SoftwareEntitlement.Client.Native/json.hpp:12088-12281 | A derivation of a value after sections 2 to 5 of RFC 7159 is parsed: the parser gives the document that the tree denotes, or the first error in it, and stops behind it |
| `GrammarProof.ValueDerived` | src/Microsoft.Azure.Batch.SoftwareEntitlement.Client.Native/json.hpp:12088-12281 | What the parser accepts has a derivation with that extent and that meaning; of members with the same name the last one counts |
| `GrammarProof.TextParses` | src/Microsoft.Azure.Batch.SoftwareEntitlement.Client.Native/json.hpp:12066-12081 | A derivation of a whole text, up to its first NUL, decides what `parse` gives |
| `GrammarProof.ParseAcceptsGrammar` | src/Microsoft.Azure.Batch.SoftwareEntitlement.Client.Native/json.hpp:12066-12281 | `parse` succeeds if and only if the text has a derivation whose strings decode and whose numbers convert, and gives the document that it denotes |
| `TextProof.WrittenString` | src/Microsoft.Azure.Batch.SoftwareEntitlement.Client.Native/json.hpp:6717-11761 | A written string is scanned and decoded to itself exactly if it is well-formed UTF-8 |
| `TextProof.WrittenInteger` | src/Microsoft.Azure.Batch.SoftwareEntitlement.Client.Native/json.hpp:6863-11994 | A written integer is one token and its value comes back |
| `TextProof.ParseItemsText` | src/Microsoft.Azure.Batch.SoftwareEntitlement.Client.Native/json.hpp:6449-12281 | Written elements are parsed back, whatever surrounds them |
| `TextProof.ParseMembersText` | src/Microsoft.Azure.Batch.SoftwareEntitlement.Client.Native/json.hpp:6449-12281 | Written members are parsed back, whatever surrounds them |
| `TextProof.ParseDump` | src/Microsoft.Azure.Batch.SoftwareEntitlement.Client.Native/json.hpp:6449-12281 | A document written anywhere in a text is parsed back, or rejected, exactly as its strings and keys are well-formed UTF-8 |
| `TextProof.ParseUndoesDump` | src/Microsoft.Azure.Batch.SoftwareEntitlement.Client.Native/json.hpp:6449-12281 | `parse(dump(j))`, compact or with any indent: error 101 if some string or key is not well-formed UTF-8; otherwise the document, with its numbers as the text conversions give them back |
| `TextProof.TextRoundTrip` | src/Microsoft.Azure.Batch.SoftwareEntitlement.Client.Native/json.hpp:6449-12281 | What comes back equals the original if and only if every float in it comes back from its text equal |
| `TextProof.FloatFree` | src/Microsoft.Azure.Batch.SoftwareEntitlement.Client.Native/json.hpp:6449-12281 | A document without floats satisfies the conditions of both, whatever the conversions of floats do |
| `PrunedParser.PruneValue` | src/Microsoft.Azure.Batch.SoftwareEntitlement.Client.Native/json_vc11.hpp:4630-4797 | A value consumes at least one byte and ends inside the text |
| `PrunedParser.ValuesRelated` | src/Microsoft.Azure.Batch.SoftwareEntitlement.Client.Native/json_vc11.hpp:4630-4797 | On the same text and position both parsers end at the same place with agreeing values, or with the same error unless the full one meets a number out of range |
| `PrunedParser.MembersRelated` | src/Microsoft.Azure.Batch.SoftwareEntitlement.Client.Native/json_vc11.hpp:4664-4713 | The same for the members of an object |
| `PrunedParser.PrunedRefinesFull` | src/Microsoft.Azure.Batch.SoftwareEntitlement.Client.Native/json_vc11.hpp:4608-4797 | Whenever the full parser succeeds, so does the pruned one; every member that is finally a string or null has that value, nested objects agree recursively, and no keys are invented |
| `Acceptance.ValueAccepted` | src/Microsoft.Azure.Batch.SoftwareEntitlement.Client.Native/json_vc11.hpp:4630-4797 | Where the pruned parser reads a value, the full one does if and only if every number in that value converts to a finite one |
| `Acceptance.SameTextsAccepted` | src/Microsoft.Azure.Batch.SoftwareEntitlement.Client.Native/json_vc11.hpp:4608-4797 | The full parser accepts exactly the texts that the pruned one accepts and whose numbers all convert to finite ones; where both fail they report the same error, or the full one reports 406 |
| `Acceptance.HugeNumberDiffers` | src/Microsoft.Azure.Batch.SoftwareEntitlement.Client.Native/json_vc11.hpp:4774-4783 | `1e999` is accepted by the pruned parser and rejected with error 406 by the full one |
| `PrunedParser.SameMember` | src/Microsoft.Azure.Batch.SoftwareEntitlement.Client.Native/json_vc11.hpp:4608-4797 | A member that the full parser finds to be a string or null is read the same by the pruned one |
| `PrunedParser.PrunedParser.ParseInternal` | src/Microsoft.Azure.Batch.SoftwareEntitlement.Client.Native/json_vc11.hpp:4630-4797 | The recursive descent of the pruned parser follows its specification |
| `PrunedParser.PrunedParser.ParseObject` | src/Microsoft.Azure.Batch.SoftwareEntitlement.Client.Native/json_vc11.hpp:4636-4713 | The do-while loop over members |
| `PrunedParser.PrunedParser.SkipArray` | src/Microsoft.Azure.Batch.SoftwareEntitlement.Client.Native/json_vc11.hpp:4715-4757 | The do-while loop over elements that are dropped |
| `PrunedParser.PrunedParser.ParseText` | src/Microsoft.Azure.Batch.SoftwareEntitlement.Client.Native/json_vc11.hpp:4608-4621 | `parse` of the pruned parser |
| `StaleMembers.KeptByFirstToken` | src/Microsoft.Azure.Batch.SoftwareEntitlement.Client.Native/json_vc11.hpp:4630-4797 | Whether a value is kept is decided by its first token: a brace, a string or `null` |
| `StaleMembers.ProjectedIff` | src/Microsoft.Azure.Batch.SoftwareEntitlement.Client.Native/json_vc11.hpp:4630-4797 | A pruned value is the projection of the full one exactly if no key keeps a value that a dropped one has replaced |
| `StaleMembers.PrunedIsProjectionIff` | src/Microsoft.Azure.Batch.SoftwareEntitlement.Client.Native/json_vc11.hpp:4608-4797 | The same for whole texts |
| `StaleMembers.PrunedIsProjection` | src/Microsoft.Azure.Batch.SoftwareEntitlement.Client.Native/json_vc11.hpp:4608-4797 | Without repeated keys the pruned document is exactly the projection that drops arrays, numbers and booleans |
| `StaleMembers.StaleMemberSurvives` | src/Microsoft.Azure.Batch.SoftwareEntitlement.Client.Native/json_vc11.hpp:4695-4702 | `{"":null,"":true}` is read as true by one parser and as null by the other |
| `Store.EntitlementStore.StoreEntitlement` | src/Microsoft.Azure.Batch.SoftwareEntitlement/EntitlementStore.cs:12-19 | A new id gets a record with the given id, token and time, no renewals and no release; an existing one keeps its record, which is returned |
| `Store.EntitlementStore.FindEntitlement` | src/Microsoft.Azure.Batch.SoftwareEntitlement/EntitlementStore.cs:21-29 | Succeeds exactly for stored ids, with the stored object |
| `Store.EntitlementStore.RenewEntitlement` | src/Microsoft.Azure.Batch.SoftwareEntitlement/EntitlementStore.cs:31-37 | Without interference: succeeds exactly for stored ids, appends the time and changes nothing else |
| `Store.EntitlementStore.ReleaseEntitlement` | src/Microsoft.Azure.Batch.SoftwareEntitlement/EntitlementStore.cs:39-45 | Without interference: succeeds exactly for stored ids, sets the release time and changes nothing else |
| `Store.EntitlementStore.TryUpdate` | src/Microsoft.Azure.Batch.SoftwareEntitlement/EntitlementStore.cs:47-65 | Without interference: the stored record becomes the updated one |
| `Store.EntitlementStore.Swap` | src/Microsoft.Azure.Batch.SoftwareEntitlement/EntitlementStore.cs:55-58 | The swap compares objects, not contents |
| `StoreProtocol.NextKeeps` | src/Microsoft.Azure.Batch.SoftwareEntitlement/EntitlementStore.cs:12-65 | Every step of every interleaving keeps the invariant and only adds to the history |
| `StoreProtocol.RunKeeps` | src/Microsoft.Azure.Batch.SoftwareEntitlement/EntitlementStore.cs:12-65 | Every state of every run satisfies the invariant |
| `StoreProtocol.SwapKeeps` | src/Microsoft.Azure.Batch.SoftwareEntitlement/EntitlementStore.cs:55-61 | The swap step keeps the invariant |
| `StoreProtocol.ReplayIsHistory` | src/Microsoft.Azure.Batch.SoftwareEntitlement/EntitlementProperties.cs:34-48 | Replaying the commits of an id gives its renewal times in order and its last release |
| `StoreProtocol.NoLostUpdates` | src/Microsoft.Azure.Batch.SoftwareEntitlement/EntitlementStore.cs:12-65 | In every state of every run the renewal times of an entitlement are those of its committed renewals in swap order, each once, and its release is the last committed one |
| `StoreProtocol.CommittedOnce` | src/Microsoft.Azure.Batch.SoftwareEntitlement/EntitlementStore.cs:47-65 | An update that reports success is committed once, one that fails or has not finished, not at all |
| `StoreProtocol.AnswersExplained` | src/Microsoft.Azure.Batch.SoftwareEntitlement/EntitlementStore.cs:12-65 | Every answer was right at some moment of its call, or an update failed because another thread committed to the same id between its read and its swap |
| `StoreProtocol.StoredAsAcquired` | src/Microsoft.Azure.Batch.SoftwareEntitlement/EntitlementStore.cs:12-19 | In every state of every run the first commit for a stored id is a call that stored it, and the record holds the token and the time of that call |
| `StoreProtocol.SwapSucceedsIff` | src/Microsoft.Azure.Batch.SoftwareEntitlement/EntitlementStore.cs:47-65 | A swap succeeds exactly if nothing was committed for the id since the read |
| `StoreProtocol.EntitlementsLast` | src/Microsoft.Azure.Batch.SoftwareEntitlement/EntitlementProperties.cs:23-60 | A stored entitlement is never removed; id, token and acquisition time never change, renewals only grow as a prefix extension, and released stays released |

## Left out

- MsgPack.DecodeEncode: covers sizes up to 2^32 - 1, as the format does; `MsgPack.DecodeEncodeIff` says that this is exactly where decoding gives the document back.
- MsgPack.PrefixFree: covers sizes up to 2^32 - 1; `MsgPack.NotPrefixFree` shows that it fails beyond.
- TextProof.ParseUndoesDump: the texts of floats come from `snprintf` and are read by `strtod`; both are parameters, and the lemma requires (`FloatsReturn`) that what the one writes is `null` or a number token that the other converts to a finite number whatever follows it. `TextProof.FloatFree` needs nothing of them.
- TextProof.ParseItemsText: has the same condition on the text of floats.
- TextProof.ParseMembersText: has the same condition on the text of floats.
- TextProof.ParseDump: has the same condition on the text of floats.
- TextProof.TextRoundTrip: has the same condition on the text of floats.
- Layout.PrettyIsFormatted: requires that the texts of floats, which are a parameter, are not empty and hold no brackets, commas, colons or quotes.
- CborItems.EncodesItem: covers encodings of less than 2^63 bytes, which is what a vector can hold.
- MsgPackItems.EncodesItem: covers encodings of less than 2^63 bytes and sizes up to 2^32 - 1; for larger sizes the encoder writes no header.
- Store.EntitlementStore.RenewEntitlement: describes a call without interference; `StoreProtocol` covers concurrent calls.
- Store.EntitlementStore.ReleaseEntitlement: describes a call without interference; `StoreProtocol` covers concurrent calls.
- Store.EntitlementStore.TryUpdate: describes a call without interference; `StoreProtocol` covers concurrent calls.
- In patch and in pointer access, documents are values and references are locations in them; sharing between a document and the working copy is not modelled.
- The operations `move`, `copy` and `test` of a patch are modelled as the code applies them, but nothing is claimed about RFC 6902 for them; `copy` evaluates its source first, where C++11 leaves the order open.
- Parser callbacks, depth counting and discarded top-level values through callbacks: the client never passes a callback.
- Stream input, exception texts and byte positions in exceptions.
- The payload of a NaN that is widened from half or single precision.
- `std::stoi` and `strtoull` follow the C locale; other locales are not modelled.
- Memory: allocation failures, stack depth of recursion, `std::vector` and `std::string` internals.
- Iterators, type conversions, hashing, constructors and the other member functions of `basic_json`.
- Internals of `ConcurrentDictionary`: its single operations are taken to be atomic.
- The claims of a token, error sets, result combinators, certificates, HTTP and command-line code.
