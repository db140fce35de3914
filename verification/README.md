# Verified model of struct_meta and of the conditional-comment rewriter

The first part models the `struct_meta` library: it turns a parsed C header into *descriptors* (name, size and fields of every structure), computes the x86_64 layout, validates descriptors, caches validation and name lookups in a registry, resolves textual paths to addresses, and converts instances to and from JSON. The second part models `bin/fix-if-comments.py`, which rewrites the comments of `#else` and `#endif` and turns one kind of `#else` into `#elif`.

`dafny verify dfyconfig.toml` checks everything.

## How the system is modelled

- A descriptor is an index (`Ref`) into an immutable graph, so that cycles can be written down; a C pointer with a count is a `Table`, which may be a null pointer with a positive count. `size_t` is `Size`, bounded by `SIZE_MAX`; C strings are sequences of non-NUL bytes.
- Code that updates state in place is a class or a method with loops: the validator's ancestor stack, the builder's entries, the registry, the layout builder, the arena, the emitter, the scanner of the rewriter, the bytes of an instance (`array<Byte>`). Each is proved against a specification function or predicate, and the theorems are about those.
- Recursion over nested structures takes a ghost depth `k` for which the descriptor is valid (`ValidWithin`); results do not depend on it, and `Valid` says that some depth exists.
- Modules `Declared`, `JsonMeaning`, `JsonEncoding`, `JsonDecoding`, `JsonStored`, `PathMeaning` and `Labels` say what the specification functions amount to, in terms of declarations, attributes, bytes, character codes and lines only.
- `Built` and `Pipeline` join the parts: layout and validator, builder and path resolver, builder and JSON, catalog and generator.
- The rewriter works on classified lines (`IfComments.Line`). Blocks live in a numbered store because an `#else` keeps a reference to the macro list of its block, so macros added later still reach it.

Where source and documentation differ, the source is followed: the rewriter's usage text does not say that a second run may change the file again; it may, and `OnePassIffNoPlatformElse` says exactly when.

Properties that do not hold in general come with a counterexample and their exact condition: `OneByteHexIsBuiltButInvalid` with `BuiltIsValidIffPresentable`, `SharedKeyLosesAValue` with `EveryInstanceRestoredIff`, `ElseCommentMayMislead` with `ElseCommentTells`, `NeitherDefinedLosesALine` with `SameMeaningIffSafe` and `PreservedIffPlatformDefined`, `OnePassMayNotBeEnough` with `OnePassIffNoPlatformElse`.

## Model

| member | source | states |
|---|---|---|
| Validator.Context.Push | app/struct-meta/prod/libsrc/struct_meta/meta/validate.c:30-60 | pushing a descriptor fails exactly when it is already an ancestor, and then leaves the stack as it was |
| Validator.Context.CheckAttributes | app/struct-meta/prod/libsrc/struct_meta/meta/validate.c:62-90 | an attribute table is accepted exactly when every key is present and non-empty and no two are equal |
| Validator.Context.CheckExtent | app/struct-meta/prod/libsrc/struct_meta/meta/validate.c:114-148 | the shape and range tests of one field, written with overflow-safe divisions and subtractions, accept exactly the fields whose extent over the integers ends inside the structure |
| Validator.Context.CheckField | app/struct-meta/prod/libsrc/struct_meta/meta/validate.c:112-182 | a field is accepted exactly when it is well formed and its nested structure is accepted below the current ancestors; the stack is restored |
| Validator.Context.CheckDescriptor | app/struct-meta/prod/libsrc/struct_meta/meta/validate.c:92-188 | the recursion on an arbitrary, possibly cyclic graph terminates, restores the ancestor stack and returns its verdict |
| Validator.ValidateDescriptor | app/struct-meta/prod/libsrc/struct_meta/meta/validate.c:192-212 | an unregistered descriptor is accepted exactly when it and all it nests are well formed to some finite depth |
| Validator.AcceptsIffValid | app/struct-meta/prod/libsrc/struct_meta/meta/validate.c:92-188 | the search with ancestors on a stack decides validity without them: it never refuses a shared structure and never accepts a cycle |
| Validator.ValidIffReachableOkAndAcyclic | app/struct-meta/prod/libsrc/struct_meta/meta/validate.c:92-188 | accepted means: every reachable descriptor is locally well formed and no reachable descriptor nests in itself |
| Digraph.GroundedIffNoCycleBelow | app/struct-meta/prod/libsrc/struct_meta/meta/validate.c:30-60 | a vertex of a finite graph has bounded height exactly when no cycle is reachable from it; shared by validator, builder and emitter |
| Meta.FindAttribute | app/struct-meta/prod/libsrc/struct_meta/access/access.c:115-133 | finds the first attribute with a key, or reports that there is none |
| Built.PlacedFormat | app/struct-meta/prod/libsrc/struct_meta/meta/bytes.c:43-73 | the format of a built field is accepted exactly when its meta attributes, legal in the header, stand on a primitive array of two or more elements |
| RoundTrip.HexIsByteArray | app/struct-meta/prod/libsrc/struct_meta/meta/bytes.c:30-73 | a field sent as hex text is an array of one-byte integers that fills its storage |
| Registry.Index.EnsureRegistry | app/struct-meta/prod/libsrc/struct_meta/meta/index.c:50-74 | the table is created on first use and nothing registered before is lost |
| Registry.Index.BuildFieldNames | app/struct-meta/prod/libsrc/struct_meta/meta/index.c:103-145 | a table is returned only if it answers every name as the linear search does; unless the hash table fails, one is returned exactly when there are fields, all names are under 64 bytes and no two are equal |
| Registry.Index.AddRecord | app/struct-meta/prod/libsrc/struct_meta/meta/index.c:151-177 | the record holds the true verdict and at most an exact name table; nothing else changes |
| Registry.Index.RegisterDescriptor | app/struct-meta/prod/libsrc/struct_meta/meta/index.c:151-193 | existing records stay, and on success exactly those descriptors gain one to which a nesting walk leads through descriptors without a record, all but its last valid |
| Registry.Index.UnregisterDescriptor | app/struct-meta/prod/libsrc/struct_meta/meta/index.c:199-225 | exactly those records go to which a nesting walk leads from the descriptor through recorded descriptors, all but its last valid; the rest stays unchanged; after a success on a valid descriptor nothing directly nested in it has a record |
| Registry.Index.Validate | app/struct-meta/prod/libsrc/struct_meta/meta/validate.c:192-212 | validation through the cache returns the verdict of an unregistered validation |
| Registry.Index.FindInTable | app/struct-meta/prod/libsrc/struct_meta/meta/index.c:275-307 | whenever the table answers at all, a long name included, it answers as the linear search does |
| Registry.Index.FindFieldSegment | app/struct-meta/prod/libsrc/struct_meta/access/path.c:21-45 | the field of a path segment is the one an empty registry finds |
| Registry.Index.FindField | app/struct-meta/prod/libsrc/struct_meta/access/access.c:46-83 | field lookup returns verdict and index as with an empty registry |
| Registry.Index.Serve | app/struct-meta/prod/libsrc/struct_meta/meta/index.c:229-307 | any public request keeps the cache correct and is answered transparently; its code and the set of records after it are told from the set before it |
| Registry.Run | app/struct-meta/prod/libsrc/struct_meta/meta/index.c:229-307 | over every sequence of register, unregister, validate and lookup requests, with failing table creations and insertions anywhere, no lookup differs from its answer on an empty registry, and every code and every set of records follows from the set before |
| Arithmetic.IsPowerOfTwoExact | app/struct-meta/prod/libsrc/struct_meta/layout/layout.c:76-79 | the bit test accepts exactly the powers of two |
| Layout.FindType | app/struct-meta/prod/libsrc/struct_meta/layout/layout.c:53-67 | finds the first table entry with a spelling; TypeTable says what the table holds |
| Declared.TypeTable | app/struct-meta/prod/libsrc/struct_meta/layout/layout.c:30-67 | a spelling is found exactly if it is one of the supported ones, with its kind and its width in bytes, to which it is aligned; every other spelling is unknown |
| Layout.Place | app/struct-meta/prod/libsrc/struct_meta/layout/layout.c:106-124 | the four overflow tests report out of range exactly when the end of the member over the integers exceeds SIZE_MAX |
| Layout.Builder.Add | app/struct-meta/prod/libsrc/struct_meta/layout/layout.c:91-126 | a member is placed at its ideal offset; it is refused exactly for illegal arguments or an ideal end beyond SIZE_MAX, and a refusal leaves the builder unchanged |
| Layout.Builder.End | app/struct-meta/prod/libsrc/struct_meta/layout/layout.c:128-155 | size and alignment are the ideal ones, out of range exactly when the ideal size exceeds SIZE_MAX |
| Layout.LayoutIsLegal | app/struct-meta/prod/libsrc/struct_meta/layout/layout.c:91-155 | the computed placement is aligned, in order, non-overlapping, and its size a multiple of every alignment (section 3.1.2 of the System V AMD64 ABI) |
| Layout.LayoutIsLeast | app/struct-meta/prod/libsrc/struct_meta/layout/layout.c:91-155 | no legal placement has a smaller offset for any member or a smaller size |
| Ast.AllLaidIffLegalAndAcyclic | app/struct-meta/prod/libsrc/struct_meta/catalog/build.c:223-414 | every struct has a layout exactly when all structs are legal and containment by name, first match winning, is acyclic |
| Ast.IdealByField | app/struct-meta/prod/libsrc/struct_meta/catalog/build.c:237-283 | the ideal layout is a fixed point: each member has the size and alignment of the layout of its type |
| Build.Context.FindEntry | app/struct-meta/prod/libsrc/struct_meta/catalog/build.c:207-217 | finds the first struct with a name |
| Build.Context.CopyAttributes | app/struct-meta/prod/libsrc/struct_meta/catalog/build.c:161-201 | attributes are copied in order, values included; no attributes give no array |
| Build.Context.ResolveType | app/struct-meta/prod/libsrc/struct_meta/catalog/build.c:237-275 | size, alignment and nested descriptor of a field type are the ideal ones; a failure names a real defect |
| Build.Context.BuildField | app/struct-meta/prod/libsrc/struct_meta/catalog/build.c:223-326 | one field gets its ideal descriptor, which BuiltAsDeclared reads, and its member is appended to the layout |
| Build.Context.BuildFields | app/struct-meta/prod/libsrc/struct_meta/catalog/build.c:353-369 | the layout of a struct becomes its ideal one and its fields the ideal descriptors |
| Build.Context.BuildOne | app/struct-meta/prod/libsrc/struct_meta/catalog/build.c:334-414 | the memoised search finishes an entry with its ideal descriptor, starts a pending entry once, never touches a finished one, keeps the active entries equal to the ancestors, and terminates by the pending ones |
| Build.BuildDescriptors | app/struct-meta/prod/libsrc/struct_meta/catalog/build.c:416-472 | succeeds exactly on the buildable headers, with the ideal descriptor of every struct; a failure code stands for a defect the header has; BuildableMeans and BuiltAsDeclared say both in terms of the declarations |
| Declared.MetaLegalMeans | app/struct-meta/prod/libsrc/struct_meta/catalog/build.c:112-155 | the meta attributes of a declaration are legal exactly when meta.kind, if given, says bytes and meta.format, if given, says hex, on arrays of the eight-bit types, of char only together with meta.kind |
| Declared.BuildableMeans | app/struct-meta/prod/libsrc/struct_meta/catalog/build.c:416-472 | the buildable headers by their declarations: non-empty structs, legal meta attributes, known types or declared structs, no struct inside itself, sizes within size_t |
| Declared.BuiltAsDeclared | app/struct-meta/prod/libsrc/struct_meta/catalog/build.c:223-326 | every built field has the declared name and attributes; it is a text of N bytes exactly when declared char[N] without meta.kind=bytes, otherwise it has N elements, one for a scalar, of the kind and width of its C type or of the first struct of its type name |
| Declared.BuiltFieldIsTight | app/struct-meta/prod/libsrc/struct_meta/layout/layout.c:106-124 | a built field starts less than its alignment behind the end of the fields before it |
| Declared.BuiltIsTight | app/struct-meta/prod/libsrc/struct_meta/layout/layout.c:128-155 | a built struct ends less than its alignment behind its last field, and has an alignment some field has, or 1 |
| Build.BlamedIsUnbuildable | app/struct-meta/prod/libsrc/struct_meta/catalog/build.c:416-472 | an unresolved type, an empty or malformed struct, a cycle, or an overflow each make the header unbuildable |
| Build.BuiltIsBuildable | app/struct-meta/prod/libsrc/struct_meta/catalog/build.c:416-472 | if ideal descriptors for all structs exist then nothing is wrong with the header |
| Built.BuiltIsClosed | app/struct-meta/prod/libsrc/struct_meta/catalog/build.c:237-268 | built descriptors point only to built descriptors |
| Built.BuiltIsOrdered | app/struct-meta/prod/libsrc/struct_meta/layout/layout.c:106-124 | fields of a built descriptor are in order and disjoint |
| Built.BuiltIsAligned | app/struct-meta/prod/libsrc/struct_meta/layout/layout.c:91-155 | sizes of built descriptors are multiples of their alignment and every field offset and alignment divides accordingly |
| Built.BuiltIsValidIffPresentable | app/struct-meta/prod/libsrc/struct_meta/meta/validate.c:92-188 | the validator accepts all built descriptors exactly when names are non-empty, attribute keys non-empty and unique, and meta attributes stand on primitive arrays of two or more elements |
| Built.OneByteHexIsBuiltButInvalid | app/struct-meta/prod/libsrc/struct_meta/meta/bytes.c:30-41 | counterexample: uint8_t x[1] with meta.format=hex builds and is then refused |
| Integers.StoreSigned | app/struct-meta/prod/libsrc/struct_meta/meta/integer.c:115-160 | stores a value that fits the width, reports the others, and changes memory only on success |
| Integers.StoreUnsigned | app/struct-meta/prod/libsrc/struct_meta/meta/integer.c:164-209 | stores a value that fits the width, reports the others, and changes memory only on success |
| Integers.SignedReadsBack | app/struct-meta/prod/libsrc/struct_meta/meta/integer.c:26-160 | every signed value of a width is read back from the bytes it is stored as |
| Integers.SignedWritesBack | app/struct-meta/prod/libsrc/struct_meta/meta/integer.c:26-160 | every signed value read can be stored again and restores the same bytes |
| Integers.UnsignedReadsBack | app/struct-meta/prod/libsrc/struct_meta/meta/integer.c:70-209 | every unsigned value of a width is read back from the bytes it is stored as |
| Integers.UnsignedWritesBack | app/struct-meta/prod/libsrc/struct_meta/meta/integer.c:70-209 | storing an unsigned value read from bytes restores them |
| Integers.UnsignedIsWeighted | app/struct-meta/prod/libsrc/struct_meta/meta/integer.c:70-111 | the value of bytes is the sum in which byte i counts 256 to the power i |
| Integers.SignedIsTwosComplement | app/struct-meta/prod/libsrc/struct_meta/meta/integer.c:26-66 | the signed value is that sum, less 256 to the width when the top bit of the last byte is set |
| Hex.ToHex | app/struct-meta/prod/libsrc/struct_meta/meta/bytes.c:89-123 | prints the canonical text and its terminator, reports a small or oversized buffer, and writes nothing beyond |
| Hex.ValidateHexText | app/struct-meta/prod/libsrc/struct_meta/meta/bytes.c:145-170 | accepts exactly the decodable texts, without reading past the terminator |
| Hex.FromHex | app/struct-meta/prod/libsrc/struct_meta/meta/bytes.c:172-199 | writes the decoded bytes, or refuses and leaves the memory alone |
| Hex.DecodesIffSpells | app/struct-meta/prod/libsrc/struct_meta/meta/bytes.c:145-199 | the parser accepts exactly two hex digits per byte with one or more spaces between bytes, and yields the bytes they spell |
| Hex.PrintedSpells | app/struct-meta/prod/libsrc/struct_meta/meta/bytes.c:89-199 | parse after print is the identity on non-empty byte strings |
| Hex.ReprintedIsNormalized | app/struct-meta/prod/libsrc/struct_meta/meta/bytes.c:89-199 | print after parse is the text in lower case with single spaces |
| Hex.HexTextLength | app/struct-meta/prod/libsrc/struct_meta/meta/bytes.c:75-87 | the text of n bytes has 3n - 1 characters |
| Hex.DigitMeans | app/struct-meta/prod/libsrc/struct_meta/meta/bytes.c:127-143 | a character stands for v exactly when it is the v-th hexadecimal digit in lower or upper case; the lower-case one is printed |
| Hex.TextMeans | app/struct-meta/prod/libsrc/struct_meta/meta/bytes.c:110-123 | byte k is printed at 3k and 3k + 1, high digit first, with a space behind it unless it is the last |
| Hex.TextSizeMeans | app/struct-meta/prod/libsrc/struct_meta/meta/bytes.c:75-87 | the buffer size of n bytes is 3n, and there is none exactly when n is 0 or 3n does not stay below SIZE_MAX |
| Codec.FieldOut | app/struct-meta/prod/libsrc/struct_meta/json/encode.c:157-212 | one field becomes its JSON item or the first error |
| Codec.StructOut | app/struct-meta/prod/libsrc/struct_meta/json/encode.c:228-264 | the growing object equals the specified one, whose members StructIsMeant tells: ignored fields left out, the first error returned |
| Codec.Encode | app/struct-meta/prod/libsrc/struct_meta/json/encode.c:268-282 | validates through the cache, then encodes; the result means the instance, or the code is that of the first field that has no JSON form |
| Codec.FieldIn | app/struct-meta/prod/libsrc/struct_meta/json/decode.c:137-217 | one field is decoded from its key as specified; KeyReachesField, FieldAccepts and FieldIsStored read the specification |
| Codec.StructIn | app/struct-meta/prod/libsrc/struct_meta/json/decode.c:222-239 | the loop over the fields equals the specified decoding; StructAccepted, StructRefused and StructIsStored say when it succeeds, with which code it fails and what it stores |
| Codec.Decode | app/struct-meta/prod/libsrc/struct_meta/json/decode.c:243-256 | validates through the cache, then decodes; succeeds exactly on the accepted trees, and otherwise returns the code of the first offence |
| JsonMeaning.FormatMeans | app/struct-meta/prod/libsrc/struct_meta/meta/bytes.c:43-73 | a field is formatted legally exactly when its first meta.kind, if any, is bytes and its first meta.format, if any, is hex, each on an array of two or more one-byte integers; it is hex text exactly when it then has meta.format |
| JsonMeaning.FlagsMean | app/struct-meta/prod/libsrc/struct_meta/json/decode.c:142-154 | a field is left out, or required, exactly when some attribute of it has the key json.ignore, or json.required |
| JsonMeaning.KeyIs | app/struct-meta/prod/libsrc/struct_meta/json/encode.c:217-226 | the key is the value of the first json.name attribute when that is present and non-empty, and otherwise the name of the field |
| JsonMeaning.StructIsMeant | app/struct-meta/prod/libsrc/struct_meta/json/encode.c:31-264 | the object has one member for each field without json.ignore, in field order and under its key; it holds the weighted sum or two's complement of the bytes, the text up to the NUL, hex text of the bytes, an array of all elements, or an object for a nested structure |
| JsonEncoding.StructAnswers | app/struct-meta/prod/libsrc/struct_meta/json/encode.c:31-264 | encoding succeeds exactly when no field stands in its way, and otherwise the first that does gives the code: Unsupported for a floating-point width, InvalidEncoding for a text without NUL, OutOfRange for hex text beyond size_t |
| JsonMeaning.LookupIs | app/struct-meta/prod/libsrc/struct_meta/json/decode.c:126-150 | the first member with a key is the one found, and none is found exactly when none has it |
| JsonMeaning.KeyReachesField | app/struct-meta/prod/libsrc/struct_meta/json/decode.c:126-150 | a field is decoded from the first member under its key and from nothing else |
| JsonDecoding.StructAccepted | app/struct-meta/prod/libsrc/struct_meta/json/decode.c:30-239 | decoding succeeds exactly on the trees that fit, said without the decoder: an object for each structure, an absent key only without json.required, hex text that spells elementCount bytes, a text shorter than its buffer, an array of elementCount items (as counted in int, so modulo 2^32), exact integers in the range of width and sign, numbers for floats |
| JsonDecoding.StructRefused | app/struct-meta/prod/libsrc/struct_meta/json/decode.c:30-239 | a tree that does not fit is refused with the code of its first offence in field and element order |
| JsonDecoding.FirstMissing | app/struct-meta/prod/libsrc/struct_meta/json/decode.c:150-153 | when the fields before it are accepted, an absent required key gives MissingRequired |
| JsonStored.StructIsStored | app/struct-meta/prod/libsrc/struct_meta/json/decode.c:30-239 | after a successful decoding memory holds what the tree says, field by field; a field that is ignored or absent keeps its bytes |
| RoundTrip.StructEncodes | app/struct-meta/prod/libsrc/struct_meta/json/encode.c:31-264 | encoding a valid descriptor succeeds exactly when char arrays hold a NUL, floating-point widths are 4 and 8 and hex arrays have a representable text |
| RoundTrip.MemberFound | app/struct-meta/prod/libsrc/struct_meta/json/decode.c:126-150 | a key finds the item of the first field that has it, later fields with the key being shadowed |
| RoundTrip.StructRestored | app/struct-meta/prod/libsrc/struct_meta/json/decode.c:137-239 | decoding an encoded instance into any other succeeds and makes exactly the bytes of non-ignored fields equal, text up to its NUL, everything else unchanged |
| RoundTrip.ReencodingIsIdentical | app/struct-meta/prod/libsrc/struct_meta/json/encode.c:228-264 | encoding the decoded instance gives the same JSON |
| RoundTrip.StructSeesTouch | app/struct-meta/prod/libsrc/struct_meta/json/encode.c:31-264 | encoding depends only on the bytes of non-ignored fields, of text only up to the NUL |
| RoundTrip.SharedKeyLosesAValue | app/struct-meta/prod/libsrc/struct_meta/json/decode.c:126-150 | the smallest instance of that failure: two bytes with one key both get the value of the first |
| SharedKeys.SharedKeyRivals | app/struct-meta/prod/libsrc/struct_meta/json/decode.c:137-217 | for fields of any kind that share a key, two instances that differ in a byte the later field holds are never both given back, into whatever memory they are decoded |
| Transport.SharedKeyIsNotRestored | app/struct-meta/prod/libsrc/struct_meta/json/decode.c:137-239 | every encodable instance has such a variant, differing in the later field only, whenever that field can hold two values |
| Transport.TransportedStruct | app/struct-meta/prod/libsrc/struct_meta/json/decode.c:137-239 | distinct keys, short arrays and faithful floats make every instance faithful |
| Transport.StructRepresented | app/struct-meta/prod/libsrc/struct_meta/json/encode.c:31-264 | a descriptor has an encodable instance exactly when floating-point widths are 4 and 8 and hex arrays have a representable text |
| Transport.EveryInstanceRestoredIff | app/struct-meta/prod/libsrc/struct_meta/json/decode.c:137-239 | for an ordered descriptor whose fields can hold two values, every encodable instance is restored into every other exactly when keys are distinct in each structure, arrays have at most INT_MAX items and floats survive conversion, or when nothing can be encoded |
| Pipeline.HeaderRoundTripIff | app/struct-meta/prod/libsrc/struct_meta/json/decode.c:137-239 | the same for every built header |
| RoundTrip.LongArrayRefused | app/struct-meta/prod/libsrc/struct_meta/json/decode.c:184-200 | an array of more than INT_MAX elements is always refused, because cJSON counts in int |
| DecodeFrame.StructFrame | app/struct-meta/prod/libsrc/struct_meta/json/decode.c:137-239 | for every JSON value, on success and failure, only bytes of non-ignored fields change |
| DecodeFrame.StructTouchInside | app/struct-meta/prod/libsrc/struct_meta/json/decode.c:222-239 | those bytes lie inside the instance |
| DecodeFrame.ScalarFrame | app/struct-meta/prod/libsrc/struct_meta/json/decode.c:30-109 | one value changes only its own bytes, and none when it is refused |
| DecodeFrame.FieldFrame | app/struct-meta/prod/libsrc/struct_meta/json/decode.c:137-217 | a field changes only its own bytes, and a refused hex array none |
| Paths.ParseIndex | app/struct-meta/prod/libsrc/struct_meta/access/path.c:47-79 | an index is its decimal value exactly when that fits size_t, otherwise out of range; malformed ones are refused |
| Paths.ResolveSegment | app/struct-meta/prod/libsrc/struct_meta/access/path.c:89-117 | one segment: identifier, field lookup through the registry, optional index |
| Paths.Advance | app/struct-meta/prod/libsrc/struct_meta/access/path.c:89-148 | one round of the walk ends with the specified result or enters the nested structure |
| Paths.ResolvePath | app/struct-meta/prod/libsrc/struct_meta/access/path.c:81-152 | the cursor loop equals the recursive meaning of the path, every error code included |
| Paths.Resolve | app/struct-meta/prod/libsrc/struct_meta/access/path.c:156-179 | the public function: empty path, invalid descriptor, then the walk |
| Paths.ResolvedInside | app/struct-meta/prod/libsrc/struct_meta/access/path.c:81-152 | on a valid descriptor a resolved target lies wholly inside the instance |
| PathText.ResolveIsFollow | app/struct-meta/prod/libsrc/struct_meta/access/path.c:81-152 | resolving the text of a list of steps is following the steps, errors included |
| PathText.ResolvesIffSteps | app/struct-meta/prod/libsrc/struct_meta/access/path.c:81-152 | a text resolves to a target exactly when it is the text of steps that lead there |
| PathMeaning.StartsWithAName | app/struct-meta/prod/libsrc/struct_meta/access/path.c:95-98 | a path, or the rest of one behind a dot, that does not start with a letter or an underscore, by character code, is an invalid argument |
| PathMeaning.SegmentMeans | app/struct-meta/prod/libsrc/struct_meta/access/path.c:89-148 | name or name[number] means the first field of that name and the element that many element sizes behind it; numbers are positional; an absent element or an element of a text is out of range; a dot goes on in the nested structure at that place and may follow only a single structure |
| PathMeaning.UnknownName | app/struct-meta/prod/libsrc/struct_meta/access/path.c:105-109 | a name no field has is not found |
| PathLayout.ResolvedAligned | app/struct-meta/prod/libsrc/struct_meta/access/path.c:105-148 | on an aligned instance of a laid-out descriptor every resolved address is aligned for its type, through any depth of arrays |
| PathLayout.LeavesApart | app/struct-meta/prod/libsrc/struct_meta/access/path.c:105-148 | different leaves of an ordered descriptor share no byte |
| PathLayout.PathsApart | app/struct-meta/prod/libsrc/struct_meta/access/path.c:105-148 | leaf paths that pass through different fields or elements name disjoint bytes |
| Menu.AppendPath | app/struct-meta/prod/libsrc/struct_meta/patch/patch.c:44-69 | concatenates with a terminator; out of range exactly when the buffer size exceeds size_t |
| Menu.AppendIndexPath | app/struct-meta/prod/libsrc/struct_meta/patch/patch.c:83-92 | appends the decimal index; the print buffer is never too small |
| Menu.DecimalReadsBack | app/struct-meta/prod/libsrc/struct_meta/patch/patch.c:83-92 | the printed index is read back as the same number |
| Menu.PatchStruct | app/struct-meta/prod/libsrc/struct_meta/patch/patch.c:447-687 | the path text and the address of the nested menus move together; only an oversized path stops the descent |
| Menu.MenuPathsResolve | app/struct-meta/prod/libsrc/struct_meta/patch/patch.c:447-687 | if each chosen field has an identifier for a name that no earlier field of its structure has, the path the menu shows resolves to exactly the field, element and address it edits |
| Arena.AlignedOffsetDoesNotWrap | app/struct-meta/prod/libsrc/struct_meta/catalog/arena.c:75-81 | the address arithmetic never wraps in size_t |
| Arena.Arena.Allocate | app/struct-meta/prod/libsrc/struct_meta/catalog/arena.c:83-125 | returned blocks are aligned, zero, inside a live chunk and disjoint from all earlier ones; a request fails only for illegal arguments, a size beyond size_t, or calloc; the newest chunk serves what fits in it, otherwise a new one; no chunk moves or is lost |
| Arena.TakesLowestPlace | app/struct-meta/prod/libsrc/struct_meta/catalog/arena.c:75-100 | a request fits in a chunk exactly when some aligned address behind the used bytes has room, and takes the lowest such address |
| Arena.Arena.TakeFromNewChunk | app/struct-meta/prod/libsrc/struct_meta/catalog/arena.c:102-125 | a new chunk always serves the request it was obtained for, so the final bounds check is never taken |
| Arena.Arena.Write | app/struct-meta/prod/libsrc/struct_meta/catalog/arena.c:83-125 | a client that writes a byte of its own block changes that byte only and keeps the invariant, unused bytes staying zero |
| Catalogs.Catalog.CreateIndex | app/struct-meta/prod/libsrc/struct_meta/catalog/catalog.c:60-88 | unless the hash table fails, succeeds exactly when names are distinct |
| Catalogs.Catalog.Find | app/struct-meta/prod/libsrc/struct_meta/catalog/catalog.c:268-289 | finds the one descriptor with a name, or proves there is none |
| Catalogs.Catalog.RegisterAll | app/struct-meta/prod/libsrc/struct_meta/catalog/catalog.c:96-102 | without failures every descriptor is registered; earlier records stay |
| Catalogs.Catalog.Destroy | app/struct-meta/prod/libsrc/struct_meta/catalog/catalog.c:223-241 | whatever was registered, no descriptor of the catalog remains and every other record is unchanged unless nested in one of them |
| Emit.Emitter.EmitStruct | app/struct-meta/prod/src/cmd/struct-meta-gen/struct_meta_gen_emit.c:292-383 | emits a structure once, after everything it points to, and nothing else |
| Emit.EmitCatalog | app/struct-meta/prod/src/cmd/struct-meta-gen/struct_meta_gen_emit.c:719-725 | the output is a topological order of all descriptors of the catalog and those below them, each exactly once |
| Pipeline.HeaderPathsAreSafe | app/struct-meta/prod/libsrc/struct_meta/access/path.c:81-152 | for a header that builds and validates, resolved addresses are inside the instance and aligned |
| Pipeline.HeaderLeavesAreApart | app/struct-meta/prod/libsrc/struct_meta/access/path.c:105-148 | for such a header different leaf paths are disjoint |
| Pipeline.CreateFromStructs | app/struct-meta/prod/libsrc/struct_meta/catalog/catalog.c:108-149 | unless the hash table fails, a catalog is created exactly when the header is buildable and struct names are distinct, and every struct is then registered |
| Pipeline.GenerateFor | app/struct-meta/prod/src/cmd/struct-meta-gen/struct_meta_gen_emit.c:659-725 | for every built catalog with distinct names the generator lists all structs once, in dependency order |
| IfComments.CommonMacroPrefix | bin/fix-if-comments.py:58-78 | the shrinking loop computes the label |
| IfComments.LabelIsLongest | bin/fix-if-comments.py:58-78 | the label is the longest common prefix that ends in an underscore and has another character; there is none only if none exists |
| Passes.StepKeepsSame | bin/fix-if-comments.py:88-169 | the stack machine takes a line and its replacement to the same stack and to blocks that agree in kind, macro and complex-chain flag |
| Preprocess.StepInStep | bin/fix-if-comments.py:88-169 | the open blocks of the stack machine stay the open groups of a preprocessor, and a chain that only tested PLATFORM_LINUX and took nothing lies where that macro is undefined |
| IfComments.FindDirectives | bin/fix-if-comments.py:81-169 | every matched #else and #endif is recorded with its block as it was there |
| IfComments.Analyze | bin/fix-if-comments.py:81-228 | the fixes, from the state of each block at the line and the macros its chain ends up with, since the list is shared; what they say is told by ElseCommentTells, ElseUnlabelled and EndComment |
| IfComments.Rewrite | bin/fix-if-comments.py:231-248 | applying the fixes changes exactly the fixed lines; what the new lines say is told by ElseCommentTells, ElseUnlabelled, EndComment and OtherwiseUntouched |
| IfComments.BlocksGrow | bin/fix-if-comments.py:88-169 | later lines only extend a chain and raise flags of a block |
| Labels.BalancedIffWellNested | bin/fix-if-comments.py:88-169 | the blocks of the scan are the conditionals of the file: balanced for the scan is well nested by the lines alone |
| Labels.TakenIffHeld | bin/fix-if-comments.py:88-169 | in a live region a preprocessor has taken a branch of an open conditional exactly when some condition of it was true when its line was reached |
| Labels.ElseCommentTells | bin/fix-if-comments.py:172-200 | in a rewritten balanced file the comment of an #else, read as a conjunction of macros that are or are not defined, is true at its line exactly when the #else branch is taken, provided the conditional is live and its conditions keep their values; under an #ifdef or #ifndef with an #elif it is also true, and then only, when the first branch is not taken but a later one is |
| Labels.UnredefinedIsSteady | bin/fix-if-comments.py:5-12 | the conditions of a conditional keep their values when no line inside it redefines what they test |
| Labels.ElseCommentMayMislead | bin/fix-if-comments.py:181-184 | counterexample: under an #ifdef with an #elif the comment is true although the #else is not taken |
| Labels.ElseUnlabelled | bin/fix-if-comments.py:185-189 | an #else whose chain has another kind of condition loses its comment; under any other #if it stays as it is |
| Labels.EndComment | bin/fix-if-comments.py:202-228 | an #endif names the macro its #ifdef, #ifndef or unchained #if defined tests, or the label of all macros its chain tests; it is bare when the chain has another kind of condition, and unchanged under any other #if |
| Labels.OtherwiseUntouched | bin/fix-if-comments.py:172-228 | lines outside any conditional, and lines that are no #else or #endif, stay as they are |
| Preprocess.SameMeaningIffSafe | bin/fix-if-comments.py:172-228 | for each file and environment, every prefix of the rewritten file leaves the same kept lines, environment and open groups exactly when a platform macro is defined at each converted #else that would be taken |
| Preprocess.MeaningIsPreserved | bin/fix-if-comments.py:172-228 | it is enough that one of the platform macros is defined in every environment the preprocessor reaches, however they are redefined |
| Preprocess.PreservedIffPlatformDefined | bin/fix-if-comments.py:172-228 | all files that do not redefine the platform macros keep their meaning exactly in the environments where at least one of them is defined |
| Preprocess.CommentsOnly | bin/fix-if-comments.py:172-228 | a file with no #else that meets the guard of the conversion keeps its meaning in every environment |
| Preprocess.NeitherDefinedLosesALine | bin/fix-if-comments.py:190-193 | counterexample: with neither platform macro defined a line is lost |
| Passes.NothingLeftToConvert | bin/fix-if-comments.py:190-193 | a rewritten file has no #else left to convert |
| Passes.TwoPassesAreEnough | bin/fix-if-comments.py:172-228 | for every input the third analysis finds nothing |
| Passes.ConvertedBecomesElif | bin/fix-if-comments.py:185-196 | the guard of the conversion tells which #else lines become #elif |
| Passes.OnePassIffNoPlatformElse | bin/fix-if-comments.py:172-228 | on balanced input the second analysis finds nothing exactly when no #else labelled PLATFORM_WINDOWS closes a chain that tests PLATFORM_LINUX alone |
| Passes.OnePassMayNotBeEnough | bin/fix-if-comments.py:172-228 | the smallest input that needs two passes |
| Passes.StaysBalanced | bin/fix-if-comments.py:172-228 | rewriting keeps conditionals balanced |

## Left out

- Build.BuildDescriptors: when a header has several defects, which of them is reported first is not specified; every reported code stands for a defect that is there. Allocation failures of the arena during a build are not modelled.
- Registry.Index.RegisterDescriptor: does not promise that everything reachable is registered, because descriptors that were registered before are not visited again and may have lost what they nest.
- RoundTrip.StructRestored: bytes after the NUL of a text are not carried.
- Transport.EveryInstanceRestoredIff: is for descriptors whose fields can all hold two values; a field that holds only one, such as a char buffer of a single byte, may share a key without losing anything.
- Floating-point conversions are parameters; a `float` survives when narrowing its widened value restores its bytes, which hardware may break for signalling NaNs. Integers are exact in the JSON tree.
- Preprocess.MeaningIsPreserved: is about lines already classified; regular expressions, indentation, line ends, unclosed comment tails and conditionals in unrecognised spellings (taken as text) are not part of this model.
- Catalogs.Catalog.CreateIndex: a partially filled index after a failure is dropped at once, where the source leaves that to the destruction that follows.
- Pipeline.CreateFromStructs: starts with an empty registry; descriptors of other catalogs are other memory, and the registry operations are proved for any registry.
- Validator.Context.Push: growth of the ancestor stack is assumed to succeed; the registry would cache the transient failure.
- Memory for encoded JSON items is assumed to be available.
- The hash table is a map; creating it and inserting may fail at any time, finding and deleting never do (a failing search would be taken for an unregistered key). Its capacity, growth and image formats are not part of this model.
- Descriptors do not change while the registry refers to them: lifetime of registered memory is the caller's obligation.
- Addresses are unbounded integers; since every resolved target lies inside its instance, pointer arithmetic on an instance that fits the address space does not wrap.
- Null arguments of public functions, diagnostics and brief texts.
- Arena chunks are values whose addresses are given by calloc; `copy_string` is a write into its own block.
- Bit operations on bytes are written arithmetically (a shifted high digit or byte is a multiplication), except the power-of-two test, which uses a bitwise and. Character classes are those of the C locale.
- cJSON internals beyond first-match lookup and the int-valued array length, JSON text and files.
- The interactive loops of the patch menus, value entry and printing; only path building and descent are modelled.
- The scanner, grammar and documentation comments of the header parser: the model starts from the parsed structs.
- The C text the generator writes, beyond the order of the structures; statically attached catalogs, beyond registration.
- Every other program and script of the repository (samples, calculators, service, release and packaging tools): no state or arithmetic comparable to the above.
