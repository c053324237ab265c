# Fast-DDS dynamic types: JSON serializer and IDL generator, in Dafny

This project models the two engines in Fast-DDS `src/cpp/fastdds/xtypes/utils.cpp`.

- **DynamicData to JSON.** `json_serialize` takes a dynamic value whose type is a structure. It walks the value's members in member-id order. Primitives, strings, enums and bitmasks are read directly. Structures, bitsets, unions, sequences, arrays and maps are reached by loaning the nested value and handing it back afterwards. Each member's JSON value goes into an nlohmann document with `json_insert`. Two dialects exist: `OMG` writes enums as names and bitmasks as numbers, and `EPROSIMA` writes them as objects. The first failing member stops the walk, and its return code is the result.
- **DynamicType to IDL.** `generate_idl_schema` builds a tree of type nodes with `generate_dyn_type_tree`. Each node holds a member name and the IDL name of its type, given by `type_kind_to_str`. The generator walks every node in `all_nodes()` order and writes a definition (`struct_to_str`, `enum_to_str` or `union_to_str`) for each structure, enum or union whose name it has not written yet. It then writes the root structure once more.

The model has three layers:

- **Data.** Dynamic types and values are datatypes (`DynTypes`, `DynDataModel`). The JSON document is a datatype too (`JsonValue`).
- **Specification.** The serializer's result is a pure function (`JsonModel`). Its properties are lemmas (`JsonLaws`, `BasicLaws`). They rest on generic laws of the member loops (`MemberLoops`).
- **Imperative serializer.** The serializer itself is written as methods (`JsonSerializer`), each proved equal to the specification function. It runs against a loan ledger (`Loans.LoanLedger`): a class whose set of outstanding loans and ghost event log the methods update in place. The proofs show three things:
  - a loan is never refused as already taken;
  - every loan is handed back;
  - the loans taken and returned during one `json_serialize` call pair up.

The IDL generator (`IdlSchema`) is mostly pure functions over the type tree. `generate_dyn_type_schema_from_tree` is a method whose loop over the nodes is proved against a specification of the nodes it writes.

## Model

| member | source | states |
|---|---|---|
| JsonModel.Serialize | src/cpp/fastdds/xtypes/utils.cpp:146-189 | a null value or a non-structure fails with BAD_PARAMETER and leaves the document as it was; success implies a structure |
| JsonLaws.SerializeOutcome | src/cpp/fastdds/xtypes/utils.cpp:146-189 | for a structure, the call succeeds exactly when every member (in id order) serializes; otherwise it returns the error of the first failing member |
| JsonLaws.SerializeWritesEveryMember | src/cpp/fastdds/xtypes/utils.cpp:158-174 | when all members serialize and their names are distinct: every member's value is stored under its name, no other key is added, and every pre-existing key is kept |
| JsonSerializer.JsonSerialize | src/cpp/fastdds/xtypes/utils.cpp:146-189 | the imperative walk returns exactly the specification's code and document; the loan ledger ends as it started, and loans and returns during the call pair up |
| JsonSerializer.SerializeMembers | src/cpp/fastdds/xtypes/utils.cpp:165-174 | the member loop with early exit equals the fold over the members; the ledger is restored and its log extended by balanced events |
| JsonSerializer.SerializeTypedMember | src/cpp/fastdds/xtypes/utils.cpp:191-204 | the member-descriptor overload serializes with the alias-resolved kind and the member's name, as one step of the fold |
| JsonSerializer.SerializeMember | src/cpp/fastdds/xtypes/utils.cpp:206-439 | the kind dispatch equals the specification: basic kinds are read directly; TK_ALIAS, TK_ANNOTATION and unknown kinds fail with BAD_PARAMETER; other kinds are loaned |
| JsonSerializer.SerializeLoanedMember | src/cpp/fastdds/xtypes/utils.cpp:242-291 | loan, serialize, return: a member that cannot be loaned fails with BAD_PARAMETER and inserts nothing; otherwise the nested result is inserted on success; the ledger is restored |
| JsonSerializer.LoanedMemberInto | src/cpp/fastdds/xtypes/utils.cpp:242-426 | the loan branches of the specification: no loanable member means BAD_PARAMETER with the document unchanged; otherwise the nested value's outcome decides |
| JsonSerializer.SerializeLoaned | src/cpp/fastdds/xtypes/utils.cpp:242-426 | the loaned value is serialized as a struct/bitset, union, map or collection; on success exactly that value is inserted; on failure the document is unchanged and the code is the value's error |
| JsonSerializer.SerializeBasicMember | src/cpp/fastdds/xtypes/utils.cpp:451-916 | a basic member is inserted on success and leaves the document unchanged on failure, as the specification says |
| JsonSerializer.SerializeUnion | src/cpp/fastdds/xtypes/utils.cpp:293-340 | the union's JSON is the specification's UnionValue, and so are its errors |
| JsonSerializer.SerializeMap | src/cpp/fastdds/xtypes/utils.cpp:372-426 | the loop over the map's items equals the fold keyed by the decimal member id; errors are the specification's |
| JsonSerializer.SerializeCollection | src/cpp/fastdds/xtypes/utils.cpp:918-966 | a sequence or array is inserted on success only; failure leaves the document unchanged and returns the error |
| JsonSerializer.SerializeSequence | src/cpp/fastdds/xtypes/utils.cpp:925-947 | the loop over items 0..count-1 equals the item fold with the same early exit |
| JsonSerializer.SerializeArray | src/cpp/fastdds/xtypes/utils.cpp:968-1010 | the recursive array walk, including the running flat index, equals the array fold |
| JsonSerializer.SerializeElements | src/cpp/fastdds/xtypes/utils.cpp:978-991 | the innermost dimension appends one element per index, advancing the index, and stops at the first failure |
| JsonSerializer.SerializeRows | src/cpp/fastdds/xtypes/utils.cpp:992-1008 | an outer dimension builds one inner array per row and appends it only when the row succeeds |
| JsonModel.MemberValue | src/cpp/fastdds/xtypes/utils.cpp:206-439 | every failure is a real error code; TK_NONE, TK_ALIAS and TK_ANNOTATION fail with BAD_PARAMETER |
| JsonModel.SerializeMemberInto | src/cpp/fastdds/xtypes/utils.cpp:206-439 | success inserts the member's value under its name, or appends it when the document is an array; failure leaves the document unchanged and reports the member's error |
| JsonModel.BasicValue | src/cpp/fastdds/xtypes/utils.cpp:451-916 | failures are BAD_PARAMETER; success only for a basic kind other than TK_NONE, with the JSON shape of that kind and dialect |
| JsonModel.ScalarJson | src/cpp/fastdds/xtypes/utils.cpp:467-711 | each stored primitive is written as the JSON shape of its kind: boolean, number or string |
| BasicLaws.ScalarJsonReadsBack | src/cpp/fastdds/xtypes/utils.cpp:467-711 | the JSON value of a primitive reads back as that primitive (booleans, integers of every width, floats, char8 as a one-character string, strings, and UTF-8 wide text up to U+10FFFF) |
| BasicLaws.BasicValueWritesStored | src/cpp/fastdds/xtypes/utils.cpp:467-711 | a primitive member is written as the JSON value of the primitive stored under its id, of exactly its kind, which reads back as that primitive |
| Text.Utf8CharDecodes | src/cpp/fastdds/xtypes/utils.cpp:668-673 | `codecvt_utf8` writes a code point up to U+10FFFF as one well-formed UTF-8 sequence carrying it |
| Text.Utf8RoundTrip | src/cpp/fastdds/xtypes/utils.cpp:700-704 | wide text of code points up to U+10FFFF converted to UTF-8 decodes back to the same code points |
| JsonModel.EnumValue | src/cpp/fastdds/xtypes/utils.cpp:713-775 | failures are BAD_PARAMETER; success is a name (OMG) or a {name, value} object (EPROSIMA) |
| JsonModel.EnumNameLeast | src/cpp/fastdds/xtypes/utils.cpp:734-760 | the literal lookup fails exactly when no literal's default value is the decimal text of the value; otherwise it returns the least-named such literal, as the by-name map's iteration finds first |
| BasicLaws.EnumNameDesignates | src/cpp/fastdds/xtypes/utils.cpp:744-760 | the name found designates a literal whose default value parses back to the stored value |
| BasicLaws.EnumValueDesignatesStored | src/cpp/fastdds/xtypes/utils.cpp:713-775 | an enum member succeeds exactly when some literal has the stored int32 value; it is then written as that literal's name (OMG) or as that name with the value (EPROSIMA) |
| JsonModel.EnumObject | src/cpp/fastdds/xtypes/utils.cpp:760-765 | the EPROSIMA enum object has exactly the keys "name" and "value" |
| JsonModel.BitmaskWidth | src/cpp/fastdds/xtypes/utils.cpp:791-830 | the storage width is 8, 16, 32 or 64: the smallest of 8, 16, 32 that holds the bound, and 64 for every bound from 33 on |
| JsonModel.BitmaskValue | src/cpp/fastdds/xtypes/utils.cpp:776-911 | failures are BAD_PARAMETER; success has the bitmask shape of the dialect |
| JsonModel.BitmaskObject | src/cpp/fastdds/xtypes/utils.cpp:836-906 | the EPROSIMA bitmask object has exactly the keys "value", "binary" and "active" |
| BasicLaws.BitmaskValueReads | src/cpp/fastdds/xtypes/utils.cpp:776-830 | a bitmask member serializes only if its descriptor resolves, its type has a bound, and the value is readable at the width that bound selects |
| BasicLaws.BitmaskValueLaw | src/cpp/fastdds/xtypes/utils.cpp:776-911 | with a readable value: OMG writes it reduced to the width; EPROSIMA writes that value, a binary string of exactly `width` digits that reads back as it, and the names of the flags whose bits are set |
| BasicLaws.BinaryRoundTrip | src/cpp/fastdds/xtypes/utils.cpp:844-874 | `std::bitset<w>::to_string` has w digits and reads back as the value modulo 2^w |
| BasicLaws.BinaryDigit | src/cpp/fastdds/xtypes/utils.cpp:844-874 | the digit for bit `pos` is `pos` places from the right and is '1' exactly when that bit is set |
| BasicLaws.ActiveNamesSpec | src/cpp/fastdds/xtypes/utils.cpp:892-904 | a name is in "active" exactly when some flag with that name has its bit set |
| BasicLaws.ActiveMatchesBinary | src/cpp/fastdds/xtypes/utils.cpp:844-904 | within the width, a flag is active exactly when its binary digit is '1' |
| JsonLaws.UnloanableMemberFails | src/cpp/fastdds/xtypes/utils.cpp:286-291 | a member of a loaned kind that the value does not hold fails with BAD_PARAMETER |
| JsonLaws.StructValueLaw | src/cpp/fastdds/xtypes/utils.cpp:242-269 | a nested structure or bitset succeeds exactly when all its members do, with the first failure's error otherwise; its keys are exactly the member names, each holding its value |
| JsonLaws.UnionSelectsActiveMember | src/cpp/fastdds/xtypes/utils.cpp:293-317 | a selection no member has fails with BAD_PARAMETER; success is a one-key object holding the selected member's value under its name |
| JsonLaws.SequenceValue | src/cpp/fastdds/xtypes/utils.cpp:925-947 | a sequence is the array of its items' values in index order, or the first failing item's error; an unresolved alias element kind fails for a non-empty sequence |
| JsonLaws.ArrayValue | src/cpp/fastdds/xtypes/utils.cpp:948-1010 | an array succeeds exactly when all Product(bounds) elements do, and is then those values nested by the dimensions; otherwise it fails with the error of the first failing element |
| JsonLaws.MapValueKeys | src/cpp/fastdds/xtypes/utils.cpp:372-403 | a map succeeds exactly when every entry does; its keys are then exactly the decimal entry ids, each holding its entry's value |
| MemberLoops.InsertFoldOutcome | src/cpp/fastdds/xtypes/utils.cpp:165-174 | the member loop returns OK exactly when every member succeeds, otherwise the first failure's error |
| MemberLoops.InsertFoldObject | src/cpp/fastdds/xtypes/utils.cpp:1013-1026 | inserting all members into an object adds exactly their keys, stores each value and keeps all other keys |
| MemberLoops.InsertFoldFromNull | src/cpp/fastdds/xtypes/utils.cpp:380-403 | the keyed loop into a fresh document succeeds exactly when every element does; with distinct keys its object holds exactly those keys, each with its element's value |
| MemberLoops.ItemsFoldOutcome | src/cpp/fastdds/xtypes/utils.cpp:931-946 | the item loop succeeds exactly when all items do, appending their values in order; otherwise it returns the first failing item's error |
| MemberLoops.ElementsFoldOutcome | src/cpp/fastdds/xtypes/utils.cpp:978-991 | one dimension succeeds exactly when its n consecutive elements do, then appends their values; otherwise it stops with the first failing element's error |
| MemberLoops.ArrayFoldOutcome | src/cpp/fastdds/xtypes/utils.cpp:968-1010 | the array walk consumes Product(bounds) consecutive indices and nests their values by the dimensions |
| MemberLoops.RowsFoldOutcome | src/cpp/fastdds/xtypes/utils.cpp:992-1008 | the rows of an outer dimension are consecutive blocks of the flat indices |
| MemberLoops.ArrayFoldFirstFailure | src/cpp/fastdds/xtypes/utils.cpp:960-1008 | when some element of the array fails, the array walk returns the error of the first failing element in flat order |
| MemberLoops.RowsFoldFirstFailure | src/cpp/fastdds/xtypes/utils.cpp:992-1008 | an outer dimension stops at the first failing row, so its error is that of the first failing element |
| MemberLoops.ArrayFoldFromStart | src/cpp/fastdds/xtypes/utils.cpp:968-1010 | the whole array walk succeeds exactly when all Product(bounds) elements do, then holds their values nested by the dimensions, and otherwise returns the first failing element's error |
| MemberLoops.FirstFailingItemSplit | src/cpp/fastdds/xtypes/utils.cpp:996-1004 | the first failure of a range is the first failure of its first part, if any, and otherwise that of its second part |
| MemberLoops.IdKeysReadBack | src/cpp/fastdds/xtypes/utils.cpp:389-393 | every map key `std::to_string(id)` parses back to an id of the map |
| MemberLoops.DistinctIdsDistinctKeys | src/cpp/fastdds/xtypes/utils.cpp:389-393 | distinct entry ids give distinct keys, so no entry overwrites another |
| JsonValue.Insert | src/cpp/fastdds/xtypes/utils.cpp:1013-1026 | json_insert appends to an array; otherwise it sets the key, keeping every other key (null becomes an object) |
| Loans.LoanLedger.Lend | src/cpp/fastdds/xtypes/utils.cpp:244-246 | a loan is refused when that member is already loaned or not held as a nested value; otherwise it is recorded as outstanding and logged |
| Loans.LoanLedger.Return | src/cpp/fastdds/xtypes/utils.cpp:270-275 | handing back an outstanding loan succeeds and removes it; anything else is PRECONDITION_NOT_MET with nothing changed |
| Loans.LoanOfChildIsFresh | src/cpp/fastdds/xtypes/utils.cpp:242-291 | while only ancestors of a path are loaned, a loan of its child is not already taken, and afterwards only ancestors of the child are loaned |
| Loans.BalancedPairsLoansWithReturns | src/cpp/fastdds/xtypes/utils.cpp:242-426 | in a balanced log every loaned path is returned as often as it is loaned |
| Loans.ReplayPaths | src/cpp/fastdds/xtypes/utils.cpp:242-426 | replaying a log: the loans still open plus the returns equal the loans at the start plus those taken |
| DynDataModel.FindItemFirst | src/cpp/fastdds/xtypes/utils.cpp:389 | the item lookup finds the first item with the id, and fails exactly when no item has it |
| DynDataModel.GetScalarReadsStored | src/cpp/fastdds/xtypes/utils.cpp:467-711 | a successful typed read returns the value stored under the id; a member holding no scalar cannot be read |
| DynDataModel.LoanTargetFirst | src/cpp/fastdds/xtypes/utils.cpp:244-246 | loan_value finds the first item with the id; an id no item has cannot be loaned |
| DynDataModel.DescriptorTypeDeclared | src/cpp/fastdds/xtypes/utils.cpp:724-732 | for a non-collection, get_descriptor succeeds exactly when the enclosing type declares the id, and returns that member's type |
| DynTypes.ById | src/cpp/fastdds/xtypes/utils.cpp:159-164 | get_all_members yields the members sorted by id and as a permutation of the declared ones |
| DynTypes.FindMemberFirst | src/cpp/fastdds/xtypes/utils.cpp:303-306 | get_member finds the first member with the id and fails exactly when none has it |
| Text.NatToStringRoundTrip | src/cpp/fastdds/xtypes/utils.cpp:392 | `std::to_string` of an unsigned value parses back to it |
| Text.IntToStringRoundTrip | src/cpp/fastdds/xtypes/utils.cpp:749 | `std::to_string` of a signed value parses back to it |
| IdlSchema.TypeName | src/cpp/fastdds/xtypes/utils.cpp:1170-1247 | structures, enums and unions are named by their own name; primitives by their IDL keyword; aliases, bitmasks and bitsets by "" |
| IdlSchema.PrimitiveNamesDistinct | src/cpp/fastdds/xtypes/utils.cpp:1175-1219 | distinct primitive kinds with a keyword have distinct keywords |
| IdlSchema.ArrayNameReadsBack | src/cpp/fastdds/xtypes/utils.cpp:1118-1133 | an array name is the element name followed by dimensions that read back as the bounds |
| IdlSchema.DimsRoundTrip | src/cpp/fastdds/xtypes/utils.cpp:1127-1130 | "[b1][b2]..." reads back as the bounds |
| IdlSchema.SequenceNameReadsBack | src/cpp/fastdds/xtypes/utils.cpp:1135-1151 | a sequence name is "sequence<", the element name, bounds that read back, then ">" |
| IdlSchema.SequenceBoundsRoundTrip | src/cpp/fastdds/xtypes/utils.cpp:1144-1147 | ", b1, b2..." reads back as the bounds |
| IdlSchema.MapNameParts | src/cpp/fastdds/xtypes/utils.cpp:1153-1168 | a map name is "map<", the key name, ", ", the value name, ">" (no bound) |
| IdlSchema.MembersSorted | src/cpp/fastdds/xtypes/utils.cpp:1093-1116 | one (name, type) pair per member, in member-id order |
| IdlSchema.GenerateTree | src/cpp/fastdds/xtypes/utils.cpp:1249-1295 | each node keeps its member name and type and is named by type_kind_to_str of its type |
| IdlSchema.GenerateTreeBranches | src/cpp/fastdds/xtypes/utils.cpp:1276-1292 | an array or sequence node has exactly one branch, the element type's tree named "CONTAINER_MEMBER"; every node that is neither a structure nor a container is a leaf |
| IdlSchema.GeneratedTreeNamedByType | src/cpp/fastdds/xtypes/utils.cpp:1249-1295 | every node of a generated tree, at every depth, is named by its own type's IDL name |
| IdlSchema.AllNodesNamedByType | src/cpp/fastdds/xtypes/utils.cpp:1427 | every node all_nodes yields from such a tree is named by its type |
| IdlSchema.StructBranchesFollowMembers | src/cpp/fastdds/xtypes/utils.cpp:1258-1273 | a struct node has one branch per member, in member-id order, each that member's own subtree |
| IdlSchema.StructTextLines | src/cpp/fastdds/xtypes/utils.cpp:1319-1337 | struct_to_str writes "struct N", the opening, one NodeLine plus ";\n" per branch, and the closure |
| IdlSchema.FieldLinesPerBranch | src/cpp/fastdds/xtypes/utils.cpp:1327-1331 | the member lines are one NodeLine plus ";\n" per branch, in order |
| IdlSchema.ArrayMemberLine | src/cpp/fastdds/xtypes/utils.cpp:1297-1317 | an array member whose element name has no '[' is written as element name, member name, dimensions |
| IdlSchema.ArrayMemberLineSplitsElement | src/cpp/fastdds/xtypes/utils.cpp:1304-1310 | when the element name itself has a '[' (an array inside a sequence), the member name is inserted at that first '[' instead |
| IdlSchema.SequenceOfArraysHasBracket | src/cpp/fastdds/xtypes/utils.cpp:1304-1310 | such element names exist: for every element type and non-empty bounds, an array name and the name of a sequence of that array contain '[' |
| IdlSchema.EnumListsLiteralsById | src/cpp/fastdds/xtypes/utils.cpp:1339-1363 | enum_to_str lists the names of exactly the enum's literals, in member-id order |
| IdlSchema.CaseLinesPerMember | src/cpp/fastdds/xtypes/utils.cpp:1377-1408 | union_to_str writes one case block per member, in member-id order |
| IdlSchema.WrittenOnce | src/cpp/fastdds/xtypes/utils.cpp:1427-1450 | the first pass writes only structures, enums and unions, each taken from the nodes, each name at most once |
| IdlSchema.WrittenFirstSeen | src/cpp/fastdds/xtypes/utils.cpp:1427-1450 | every writable node's name is written, by the first writable node bearing that name |
| IdlSchema.SchemaFromTree | src/cpp/fastdds/xtypes/utils.cpp:1417-1459 | the loop with its set of written names outputs the definitions of exactly the nodes the first pass selects, each followed by a blank line, then the root struct |
| IdlSchema.GenerateIdlSchema | src/cpp/fastdds/xtypes/utils.cpp:1461-1469 | the schema of a type is the schema of its tree rooted at "PARENT" |
| IdlSchema.RootStructWrittenFirst | src/cpp/fastdds/xtypes/utils.cpp:1427-1456 | for a struct, the root is the first definition written, so it appears both first and last |

## Left out

- The `std::ostream` and `std::string` overloads of `json_serialize` (utils.cpp:109-144) are not modelled. They only print the nlohmann document or copy the stream, which is I/O.
- The warnings logged on every error path are not modelled.
- Floating-point members (TK_FLOAT32/64/128) are opaque bit patterns. nlohmann's number formatting is not modelled.
- Wide characters and wide strings are converted to UTF-8 with `std::wstring_convert`, modelled by `Text.Utf8`. It is faithful for code points up to U+10FFFF (`Text.Utf8RoundTrip`).
- Text.Utf8Char: for a wide character above U+10FFFF, the source's converter throws `std::range_error` inside a `noexcept` function, which terminates the program (utils.cpp:672-673, 703-704). The model writes four bytes with the high bits cut off instead, so such a character comes out as a different, valid one. `BasicLaws.ScalarJsonReadsBack` requires the wide text to stay within U+10FFFF for that reason.
- `DynamicDataImpl`, `DynamicTypeImpl` and the `TreeNode` collection are not part of this model. Their queries are functions of the value and type datatypes:
  - `loan_value` and `return_loaned_value` are the `LoanLedger`;
  - `get_member_id_at_index` is item order;
  - `get_all_members` sorts by id;
  - `get_all_members_by_name` is the least name;
  - `all_nodes()` is taken to be pre-order.
- Recursive types are not modelled: types are finite trees.
- 32-bit wrap-around of member ids and of the `unsigned int` array index is not modelled.
- Array bounds and types with an empty `bound()`:
  - An array type with no bounds makes `json_serialize_array` read `bounds[0]` of an empty vector, which is undefined behaviour; the model yields an empty array (`JsonLaws.ArrayValue`).
  - A bitmask type with an empty `bound()` throws from `.at(0)`; the model reports BAD_PARAMETER.
- Flag positions from 64 up never test as set (the C++ shift is undefined there).
- An array name with no '[', which only arises for an array with no bounds, makes `substr(npos)` throw. The model then writes the whole name and an empty dimension string.
- `get_descriptor` on the elements of a sequence or array yields the collection's element type.
- The default case of a union is not written, as in the source, whose `get_all_members` leaves it out. The `cases` of a `UnionType` are read as what `get_all_members` returns. A member with no labels among them is written as a type line without `case`, as the source would write it.
- The model follows the code where the design notes differ:
  - the branches of a struct node are in member-id order, not alphabetical;
  - the opening of a definition is "\n{\n";
  - bitmasks, bitsets, aliases, int8 and uint8 get the empty IDL name instead of an error;
  - sequence bounds are always printed, a zero bound included;
  - the root structure is written twice (`IdlSchema.RootStructWrittenFirst`);
  - map entries are keyed by the decimal member id, not by the map key;
  - the element kinds of sequences and arrays are not alias-resolved (`JsonLaws.SequenceValue`);
  - `node_to_str` splits an array name at its first '[', even when that bracket belongs to the element's own name (`IdlSchema.ArrayMemberLineSplitsElement`).
- JsonSerializer.SerializeBasicMember: its contract states agreement with the specification function for the basic kinds, not the per-kind `get_*_value` calls.
